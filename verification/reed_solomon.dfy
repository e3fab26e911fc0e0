/** The Reed-Solomon erasure codec of src/lib/reed_solomon.c: a systematic code obtained from a
    Vandermonde matrix, and reconstruction by Gauss-Jordan elimination.
 */
module ReedSolomon {
  import opened Wrappers
  import opened Octet
  import opened GF256
  import opened Linear
  import opened Polynomial

  // ---- Matrix inversion, in place ----

  /** The rows held by a two-dimensional buffer. */
  function Rows(m: array2<byte>): (a: Matrix)
    reads m
    ensures |a| == m.Length0
    ensures forall i :: 0 <= i < m.Length0 ==> |a[i]| == m.Length1
    ensures forall i, j :: 0 <= i < m.Length0 && 0 <= j < m.Length1 ==> a[i][j] == m[i, j]
  {
    seq(m.Length0, i requires 0 <= i < m.Length0 reads m =>
      seq(m.Length1, j requires 0 <= j < m.Length1 reads m => m[i, j]))
  }

  lemma SameMatrix(p: Matrix, q: Matrix)
    requires |p| == |q|
    requires forall i :: 0 <= i < |p| ==> |p[i]| == |q[i]|
    requires forall i, j :: 0 <= i < |p| && 0 <= j < |p[i]| ==> p[i][j] == q[i][j]
    ensures p == q
  {
    forall i | 0 <= i < |p|
      ensures p[i] == q[i]
    {
    }
  }

  method SwapRowsInPlace(m: array2<byte>, r: nat, s: nat)
    requires r < m.Length0 && s < m.Length0
    modifies m
    ensures Rows(m) == SwapRows(old(Rows(m)), r, s)
  {
    for j := 0 to m.Length1
      invariant forall i, c :: 0 <= i < m.Length0 && 0 <= c < m.Length1 ==>
                  m[i, c] == old(m[if c >= j then i else if i == r then s else if i == s then r else i, c])
    {
      var tmp := m[r, j];
      m[r, j] := m[s, j];
      m[s, j] := tmp;
    }
    SameMatrix(Rows(m), SwapRows(old(Rows(m)), r, s));
  }

  method ScaleRowInPlace(m: array2<byte>, r: nat, c: byte)
    requires r < m.Length0
    modifies m
    ensures Rows(m) == ScaleRow(old(Rows(m)), r, c)
  {
    hide Mul;
    for j := 0 to m.Length1
      invariant forall i, k :: 0 <= i < m.Length0 && 0 <= k < m.Length1 ==>
                  m[i, k] == if i == r && k < j then Mul(c, old(m[i, k])) else old(m[i, k])
    {
      MulComm(m[r, j], c);
      m[r, j] := Mul(m[r, j], c);
    }
    SameMatrix(Rows(m), ScaleRow(old(Rows(m)), r, c));
  }

  method AddRowInPlace(m: array2<byte>, r: nat, s: nat, f: byte)
    requires r < m.Length0 && s < m.Length0 && r != s
    modifies m
    ensures Rows(m) == AddRow(old(Rows(m)), r, s, f)
  {
    hide Mul, Add;
    for j := 0 to m.Length1
      invariant forall i, k :: 0 <= i < m.Length0 && 0 <= k < m.Length1 ==>
                  m[i, k] == if i == r && k < j then Add(old(m[r, k]), Mul(f, old(m[s, k]))) else old(m[i, k])
    {
      m[r, j] := Add(m[r, j], Mul(f, m[s, j]));
    }
    SameMatrix(Rows(m), AddRow(old(Rows(m)), r, s, f));
  }

  /** Invert a square matrix by Gauss-Jordan elimination; fails exactly on singular matrices. */
  method InvertMatrix(mat: Matrix, inv: array2<byte>, n: nat) returns (ok: bool)
    requires IsMatrix(mat, n, n)
    requires inv.Length0 == n && inv.Length1 == n
    modifies inv
    ensures ok <==> Nonsingular(mat, n)
    ensures ok ==> LeftInverse(Rows(inv), mat, n) && Nonsingular(Rows(inv), n)
  {
    hide Mul, Add, Inv;
    var work := new byte[n, n]((i, j) requires 0 <= i < n && 0 <= j < n => mat[i][j]);
    SameMatrix(Rows(work), mat);
    forall i, j | 0 <= i < n && 0 <= j < n {
      inv[i, j] := if i == j then 1 else 0;
    }
    ReductionStart(mat, Rows(inv), n);
    for col := 0 to n
      invariant Reduced(mat, work, inv, n, col)
    {
      var found := ClearColumn(mat, work, inv, n, col);
      if !found {
        return false;
      }
    }
    ReductionDone(Rows(work), Rows(inv), mat, n);
    ok := true;
  }

  /** The state between two columns of the elimination. */
  ghost predicate Reduced(mat: Matrix, work: array2<byte>, inv: array2<byte>, n: nat, col: nat)
    reads work, inv
  {
    && work != inv && col <= n
    && work.Length0 == n && work.Length1 == n && inv.Length0 == n && inv.Length1 == n
    && Reduction(Rows(work), Rows(inv), mat, n) && Cleared(Rows(work), n, col)
  }

  /** One pass of the outer loop of the elimination: find a pivot for column `col`, bring it to the
      diagonal, scale it to one and clear the rest of the column. */
  method ClearColumn(ghost mat: Matrix, work: array2<byte>, inv: array2<byte>, n: nat, col: nat)
    returns (found: bool)
    requires Reduced(mat, work, inv, n, col) && col < n
    modifies work, inv
    ensures !found ==> !Nonsingular(mat, n)
    ensures found ==> Reduced(mat, work, inv, n, col + 1)
  {
    hide Mul, Add, Inv, Reduction;
    var pivot := col;
    while pivot < n && work[pivot, col] == 0
      invariant col <= pivot <= n
      invariant forall r :: col <= r < pivot ==> work[r, col] == 0
    {
      pivot := pivot + 1;
    }
    if pivot == n {
      NoPivotMeansSingular(Rows(work), Rows(inv), mat, n, col);
      return false;
    }
    if pivot != col {
      ReductionSwap(Rows(work), Rows(inv), mat, n, col, pivot);
      SwapRowsInPlace(work, col, pivot);
      SwapRowsInPlace(inv, col, pivot);
    }
    ScalePivot(mat, work, inv, n, col);
    EliminateColumn(mat, work, inv, n, col);
    found := true;
  }

  method ScalePivot(ghost mat: Matrix, work: array2<byte>, inv: array2<byte>, n: nat, col: nat)
    requires Reduced(mat, work, inv, n, col) && col < n && work[col, col] != 0
    modifies work, inv
    ensures Reduced(mat, work, inv, n, col) && work[col, col] == 1
  {
    hide Mul, Add, Inv, Reduction;
    var diag := work[col, col];
    if diag != 1 {
      var invDiag := Inv(diag);
      MulInv(diag);
      MulZero(diag, 0);
      MulZero(invDiag, 0);
      ReductionScale(Rows(work), Rows(inv), mat, n, col, invDiag);
      ghost var before := Rows(work);
      ScaleRowInPlace(work, col, invDiag);
      ScaleRowInPlace(inv, col, invDiag);
      ghost var after := Rows(work);
      assert forall c :: 0 <= c < n ==> after[col][c] == Mul(invDiag, before[col][c]);
    }
  }

  method EliminateColumn(ghost mat: Matrix, work: array2<byte>, inv: array2<byte>, n: nat, col: nat)
    requires Reduced(mat, work, inv, n, col) && col < n && work[col, col] == 1
    modifies work, inv
    ensures Reduced(mat, work, inv, n, col + 1)
  {
    hide Mul, Add, Inv, Reduction;
    for row := 0 to n
      invariant Reduced(mat, work, inv, n, col) && work[col, col] == 1
      invariant forall r :: 0 <= r < row && r != col ==> work[r, col] == 0
    {
      var factor := work[row, col];
      if row != col && factor != 0 {
        ghost var w := Rows(work);
        ReductionAdd(w, Rows(inv), mat, n, row, col, factor);
        ClearedAfterAdd(w, n, row, col, factor);
        AddRowInPlace(work, row, col, factor);
        AddRowInPlace(inv, row, col, factor);
        assert forall r :: 0 <= r < n && r != row ==> Rows(work)[r] == w[r];
      }
    }
  }

  lemma ClearedAfterAdd(w: Matrix, n: nat, row: nat, col: nat, f: byte)
    requires IsMatrix(w, n, n) && row < n && col < n && row != col
    requires Cleared(w, n, col) && w[col][col] == 1 && f == w[row][col]
    ensures var w' := AddRow(w, row, col, f);
            IsMatrix(w', n, n) && Cleared(w', n, col) && w'[row][col] == 0
            && forall r :: 0 <= r < n && r != row ==> w'[r] == w[r]
  {
    hide Mul, Add;
    MulOne(f);
    MulZero(f, 0);
    AddLaws(f, 0, 0);
    AddLaws(1, 0, 0);
    AddLaws(0, 0, 0);
  }

  // ---- The code ----

  /** A codec: `k` data shards, `m` parity shards and the coding matrix, whose first `k` rows belong
      to the data shards and whose last `m` rows generate parity. */
  datatype Codec = Codec(k: nat, m: nat, coding: Matrix)

  predicate ValidParameters(k: nat, m: nat) {
    k > 0 && m > 0 && k + m <= 255
  }

  /** The values of a polynomial at the points of the data shards. */
  function Samples(p: Vec, k: nat): (r: Vec)
    requires k <= 255
    ensures |r| == k && forall i :: 0 <= i < k ==> r[i] == Eval(p, Point(i))
  {
    seq(k, i requires 0 <= i < k => Eval(p, Point(i)))
  }

  /** Data shards are samples of a polynomial at points 0 to k - 1, and row `i` of the coding matrix
      extrapolates it to point `i`. */
  ghost predicate IsCodec(c: Codec) {
    && ValidParameters(c.k, c.m) && IsMatrix(c.coding, c.k + c.m, c.k)
    && (forall p: Vec, i: nat {:trigger Samples(p, c.k), c.coding[i]} :: |p| == c.k && i < c.k + c.m ==>
          Dot(c.coding[i], Samples(p, c.k), c.k) == Eval(p, Point(i)))
    && (forall d: Vec {:trigger HasPolynomial(d)} :: |d| == c.k ==> HasPolynomial(d))
  }

  ghost predicate HasPolynomial(d: Vec) {
    |d| <= 255 && exists p: Vec {:trigger Samples(p, |d|)} :: |p| == |d| && Samples(p, |d|) == d
  }

  /** The coefficient with which data shard `k` enters parity shard `m`. */
  function Coefficient(c: Codec, m: nat, k: nat): byte
    requires IsMatrix(c.coding, c.k + c.m, c.k) && m < c.m && k < c.k
  {
    c.coding[c.k + m][k]
  }

  /** The code is systematic: data shards pass through unchanged. */
  lemma Systematic(c: Codec, d: Vec, i: nat)
    requires IsCodec(c) && |d| == c.k && i < c.k
    ensures Dot(c.coding[i], d, c.k) == d[i]
  {
    hide Dot, Eval, Samples;
    assert HasPolynomial(d);
    var p: Vec :| |p| == |d| && Samples(p, |d|) == d;
    assert Dot(c.coding[i], Samples(p, c.k), c.k) == Eval(p, Point(i));
  }

  /** The rows of `a` picked by `rows`. */
  function Pick(a: Matrix, rows: seq<nat>): (r: Matrix)
    requires forall i :: 0 <= i < |rows| ==> rows[i] < |a|
    ensures |r| == |rows| && forall i :: 0 <= i < |rows| ==> r[i] == a[rows[i]]
  {
    seq(|rows|, i requires 0 <= i < |rows| => a[rows[i]])
  }

  /** Any `k` rows of the coding matrix are independent: the code is maximum distance separable. */
  lemma MaximumDistanceSeparable(c: Codec, rows: seq<nat>)
    requires IsCodec(c) && |rows| == c.k && Distinct(rows)
    requires forall i :: 0 <= i < |rows| ==> rows[i] < c.k + c.m
    ensures Nonsingular(Pick(c.coding, rows), c.k)
  {
    hide Dot, Eval, Samples;
    var a := Pick(c.coding, rows);
    forall d: Vec {:trigger Kills(a, d)} | |d| == c.k && Kills(a, d)
      ensures IsZero(d)
    {
      assert HasPolynomial(d);
      var p: Vec :| |p| == |d| && Samples(p, |d|) == d;
      forall i | 0 <= i < |rows|
        ensures Eval(p, Point(rows[i])) == 0
      {
        assert Dot(a[i], d, |d|) == 0;
        assert Dot(c.coding[rows[i]], Samples(p, c.k), c.k) == Eval(p, Point(rows[i]));
      }
      ValuesDeterminePolynomial(p, rows);
      forall i | 0 <= i < c.k
        ensures d[i] == 0
      {
        EvalZero(p, Point(i));
      }
    }
  }

  lemma {:induction false} EvalZero(p: Vec, a: byte)
    requires IsZero(p)
    ensures Eval(p, a) == 0
  {
    hide Add, Mul;
    if |p| > 0 {
      forall i | 0 <= i < |p| - 1
        ensures p[1..][i] == 0
      {
        assert p[1..][i] == p[i + 1];
      }
      EvalZero(p[1..], a);
      MulZero(a, 0);
      AddLaws(0, 0, 0);
    }
  }

  /** The parameters determine the codec: a reader that builds it anew gets the writer's. */
  lemma CodecIsUnique(c: Codec, c': Codec)
    requires IsCodec(c) && IsCodec(c') && c.k == c'.k && c.m == c'.m
    ensures c == c'
  {
    hide Dot, Eval, Samples;
    forall i, j | 0 <= i < c.k + c.m && 0 <= j < c.k
      ensures c.coding[i][j] == c'.coding[i][j]
    {
      var e := seq(c.k, t requires 0 <= t < c.k => if t == j then 1 else 0);
      assert HasPolynomial(e);
      var p: Vec :| |p| == |e| && Samples(p, |e|) == e;
      assert Dot(c.coding[i], Samples(p, c.k), c.k) == Eval(p, Point(i));
      assert Dot(c'.coding[i], Samples(p, c.k), c.k) == Eval(p, Point(i));
      DotComm(c.coding[i], e, c.k);
      DotComm(c'.coding[i], e, c.k);
      DotUnit(e, c.coding[i], j, c.k);
      DotUnit(e, c'.coding[i], j, c.k);
    }
    SameMatrix(c.coding, c'.coding);
  }

  /** Row `i` of the Vandermonde matrix: the powers of its point. */
  method FillPowers(buffer: array2<byte>, i: nat, a: byte)
    requires i < buffer.Length0
    modifies buffer
    ensures forall j :: 0 <= j < buffer.Length1 ==> buffer[i, j] == Power(a, j)
    ensures forall r, j :: 0 <= r < buffer.Length0 && r != i && 0 <= j < buffer.Length1 ==>
              buffer[r, j] == old(buffer[r, j])
  {
    hide Mul;
    var val: byte := 1;
    for j := 0 to buffer.Length1
      invariant val == Power(a, j)
      invariant forall c :: 0 <= c < j ==> buffer[i, c] == Power(a, c)
      invariant forall r, c :: 0 <= r < buffer.Length0 && r != i && 0 <= c < buffer.Length1 ==>
                buffer[r, c] == old(buffer[r, c])
    {
      buffer[i, j] := val;
      val := Mul(val, a);
    }
  }

  method BuildVandermonde(k: nat, m: nat) returns (v: Matrix)
    requires ValidParameters(k, m)
    ensures IsMatrix(v, k + m, k)
    ensures forall i :: 0 <= i < k + m ==> v[i] == PowerRow(Point(i), k)
  {
    hide Power, Point;
    var n := k + m;
    var buffer := new byte[n, k];
    for i := 0 to n
      invariant forall r, j :: 0 <= r < i && 0 <= j < k ==> buffer[r, j] == Power(Point(r), j)
    {
      FillPowers(buffer, i, Point(i));
    }
    v := Rows(buffer);
  }

  lemma VandermondeNonsingular(v: Matrix, k: nat)
    requires 0 < k <= 255 && IsMatrix(v, k, k)
    requires forall i :: 0 <= i < k ==> v[i] == PowerRow(Point(i), k)
    ensures Nonsingular(v, k)
  {
    hide Dot, Eval, PowerRow, Point;
    forall p: Vec {:trigger Kills(v, p)} | |p| == k && Kills(v, p)
      ensures IsZero(p)
    {
      var all := seq(k, i requires 0 <= i < k => i);
      forall i | 0 <= i < k
        ensures Eval(p, Point(i)) == 0
      {
        assert Dot(v[i], p, |p|) == 0;
        DotPowerRow(p, Point(i));
      }
      ValuesDeterminePolynomial(p, all);
    }
  }

  /** The product of two matrices, entry by entry. */
  method MatrixProduct(v: Matrix, t: Matrix, n: nat, k: nat) returns (r: Matrix)
    requires IsMatrix(v, n, k) && IsMatrix(t, k, k)
    ensures IsMatrix(r, n, k)
    ensures forall i, j :: 0 <= i < n && 0 <= j < k ==> r[i][j] == Dot(v[i], Column(t, j), k)
  {
    hide Mul, Add;
    var buffer := new byte[n, k];
    for i := 0 to n
      invariant forall r, j :: 0 <= r < i && 0 <= j < k ==> buffer[r, j] == Dot(v[r], Column(t, j), k)
    {
      for j := 0 to k
        invariant forall r, c :: 0 <= r < i && 0 <= c < k ==> buffer[r, c] == Dot(v[r], Column(t, c), k)
        invariant forall c :: 0 <= c < j ==> buffer[i, c] == Dot(v[i], Column(t, c), k)
      {
        var val: byte := 0;
        for m := 0 to k
          invariant val == Dot(v[i], Column(t, j), m)
        {
          val := Add(val, Mul(v[i][m], t[m][j]));
        }
        buffer[i, j] := val;
      }
    }
    r := Rows(buffer);
  }

  /** Build the codec: succeeds on exactly the valid parameters. */
  method RsCreate(k: nat, m: nat) returns (r: Option<Codec>)
    ensures r.Some? <==> ValidParameters(k, m)
    ensures r.Some? ==> IsCodec(r.value) && r.value.k == k && r.value.m == m
  {
    if k == 0 || m == 0 || k + m > 255 {
      return None;
    }
    var v := BuildVandermonde(k, m);
    var topInv := new byte[k, k];
    VandermondeNonsingular(v[..k], k);
    var ok := InvertMatrix(v[..k], topInv, k);
    assert ok;  // a Vandermonde matrix of distinct points always inverts
    var coding := MatrixProduct(v, Rows(topInv), k + m, k);
    r := Some(Codec(k, m, coding));
    ExtrapolationMatrix(r.value, v, Rows(topInv));
  }

  lemma SamplesAreVandermonde(top: Matrix, p: Vec, k: nat)
    requires k <= 255 && IsMatrix(top, k, k) && |p| == k
    requires forall i :: 0 <= i < k ==> top[i] == PowerRow(Point(i), k)
    ensures Samples(p, k) == Apply(top, p)
  {
    hide Dot, Eval, PowerRow, Point;
    forall i | 0 <= i < k
      ensures Samples(p, k)[i] == Apply(top, p)[i]
    {
      DotPowerRow(p, Point(i));
    }
  }

  /** Multiplying the Vandermonde matrix by the inverse of its top yields a codec. */
  lemma ExtrapolationMatrix(c: Codec, v: Matrix, t: Matrix)
    requires ValidParameters(c.k, c.m) && IsMatrix(c.coding, c.k + c.m, c.k)
    requires IsMatrix(v, c.k + c.m, c.k) && IsMatrix(t, c.k, c.k)
    requires forall i :: 0 <= i < c.k + c.m ==> v[i] == PowerRow(Point(i), c.k)
    requires LeftInverse(t, v[..c.k], c.k) && Nonsingular(t, c.k)
    requires forall i, j :: 0 <= i < c.k + c.m && 0 <= j < c.k ==>
               c.coding[i][j] == Dot(v[i], Column(t, j), c.k)
    ensures IsCodec(c)
  {
    hide Dot, Eval, Samples, Apply, PowerRow, Point, Column;
    var top := v[..c.k];
    forall p: Vec, i: nat {:trigger Samples(p, c.k), c.coding[i]} | |p| == c.k && i < c.k + c.m
      ensures Dot(c.coding[i], Samples(p, c.k), c.k) == Eval(p, Point(i))
    {
      SamplesAreVandermonde(top, p, c.k);
      RowTimesMatrix(v[i], t, c.coding[i], Samples(p, c.k), c.k);
      assert Apply(t, Apply(top, p)) == p;
      DotPowerRow(p, Point(i));
    }
    LeftInverseIsRightInverse(t, top, c.k);
    forall d: Vec {:trigger HasPolynomial(d)} | |d| == c.k
      ensures HasPolynomial(d)
    {
      var p := Apply(t, d);
      SamplesAreVandermonde(top, p, c.k);
    }
  }

  // ---- Reconstruction ----

  /** The number of erased shards. */
  function Erased(present: seq<bool>): (e: nat)
    ensures e <= |present|
  {
    if |present| == 0 then 0
    else Erased(present[..|present| - 1]) + if present[|present| - 1] then 0 else 1
  }

  /** Byte `b` of shard `i` of the codeword of `data`. */
  function CodeByte(c: Codec, data: Matrix, i: nat, b: nat): byte
    requires IsMatrix(c.coding, c.k + c.m, c.k) && i < c.k + c.m
    requires |data| == c.k && forall j :: 0 <= j < c.k ==> b < |data[j]|
  {
    Dot(c.coding[i], Column(data, b), c.k)
  }

  /** The shards are `n` separate buffers of `size` bytes. */
  ghost predicate Buffers(shards: seq<array<byte>>, n: nat, size: nat) {
    && |shards| == n
    && (forall i :: 0 <= i < n ==> shards[i].Length == size)
    && (forall i, j :: 0 <= i < j < n ==> shards[i] != shards[j])
  }

  /** Shard `i` holds its part of the codeword of `data`. */
  ghost predicate HoldsShard(c: Codec, data: Matrix, shard: array<byte>, i: nat)
    reads shard
    requires IsMatrix(c.coding, c.k + c.m, c.k) && i < c.k + c.m && IsMatrix(data, c.k, shard.Length)
  {
    forall b :: 0 <= b < shard.Length ==> shard[b] == CodeByte(c, data, i, b)
  }

  lemma {:induction false} ErasedCounts(present: seq<bool>, i: nat)
    requires i < |present|
    ensures Erased(present[..i + 1]) == Erased(present[..i]) + if present[i] then 0 else 1
    ensures Erased(present[..i]) <= Erased(present)
    decreases |present|
  {
    assert present[..i + 1][..i] == present[..i];
    if i + 1 < |present| {
      var shorter := present[..|present| - 1];
      assert shorter[..i] == present[..i];
      ErasedCounts(shorter, i);
    } else {
      assert present[..i + 1] == present;
    }
  }

  method CountErased(present: seq<bool>) returns (e: nat)
    ensures e == Erased(present)
  {
    e := 0;
    for i := 0 to |present|
      invariant e == Erased(present[..i])
    {
      ErasedCounts(present, i);
      if !present[i] {
        e := e + 1;
      }
    }
    assert present[..|present|] == present;
  }

  /** The indices of the first `k` surviving shards. */
  method PickSurvivors(present: seq<bool>, k: nat) returns (surviving: seq<nat>)
    requires k + Erased(present) <= |present|
    ensures |surviving| == k && Distinct(surviving)
    ensures forall i :: 0 <= i < k ==> surviving[i] < |present| && present[surviving[i]]
  {
    surviving := [];
    var i := 0;
    while i < |present| && |surviving| < k
      invariant i <= |present| && |surviving| <= k && Distinct(surviving)
      invariant forall j :: 0 <= j < |surviving| ==> surviving[j] < i && present[surviving[j]]
      invariant |surviving| < k ==> |surviving| + Erased(present[..i]) == i
    {
      ErasedCounts(present, i);
      if present[i] {
        surviving := surviving + [i];
      }
      i := i + 1;
    }
    assert present[..|present|] == present;
  }

  /** Column `b` of `columns` holds byte `b` of each survivor. */
  ghost predicate SurvivorColumns(shards: seq<array<byte>>, surviving: seq<nat>, columns: seq<Vec>)
    reads shards
    requires forall i :: 0 <= i < |surviving| ==> surviving[i] < |shards|
  {
    && (forall b :: 0 <= b < |columns| ==> |columns[b]| == |surviving|)
    && (forall t, b :: 0 <= t < |surviving| && 0 <= b < |columns| ==>
          b < shards[surviving[t]].Length && shards[surviving[t]][b] == columns[b][t])
  }

  lemma RepairStep(repair: Vec, column: Vec, t: nat, coeff: byte, sofar: byte)
    requires t < |repair| && t < |column| && repair[t] == coeff && sofar == Dot(repair, column, t)
    ensures Dot(repair, column, t + 1) == Add(sofar, Mul(coeff, column[t]))
    ensures coeff == 0 ==> Dot(repair, column, t + 1) == sofar
  {
    hide Mul, Add;
    MulZero(column[t], 0);
    AddLaws(sofar, 0, 0);
  }

  /** The coefficient `sum_j row[j] * inv[j][t]` with which survivor `t` enters a repair. */
  method RepairCoefficient(row: Vec, inv: Matrix, k: nat, t: nat) returns (coeff: byte)
    requires |row| == k && IsMatrix(inv, k, k) && t < k
    ensures coeff == Dot(row, Column(inv, t), k)
  {
    hide Mul, Add;
    coeff := 0;
    for j := 0 to k
      invariant coeff == Dot(row, Column(inv, t), j)
    {
      coeff := Add(coeff, Mul(row[j], inv[j][t]));
    }
  }

  /** Reconstruct erased shard `e` from the survivors: accumulate each survivor times its combined
      coefficient. */
  method RepairShard(c: Codec, shards: seq<array<byte>>, surviving: seq<nat>, inv: Matrix, e: nat, size: nat,
                     ghost columns: seq<Vec>)
    requires IsMatrix(c.coding, c.k + c.m, c.k) && IsMatrix(inv, c.k, c.k)
    requires Buffers(shards, c.k + c.m, size) && e < c.k + c.m
    requires |surviving| == c.k && forall i :: 0 <= i < c.k ==> surviving[i] < c.k + c.m && surviving[i] != e
    requires |columns| == size && SurvivorColumns(shards, surviving, columns)
    modifies shards[e]
    ensures forall b :: 0 <= b < size ==> shards[e][b] == Dot(c.coding[e], Apply(inv, columns[b]), c.k)
  {
    hide Mul, Add, Dot, Apply, Column;
    forall b | 0 <= b < size {
      shards[e][b] := 0;
    }
    ghost var repair := seq(c.k, t requires 0 <= t < c.k => Dot(c.coding[e], Column(inv, t), c.k));
    forall b | 0 <= b < size
      ensures Dot(repair, columns[b], 0) == 0
    {
      DotNone(repair, columns[b]);
    }
    for t := 0 to c.k
      invariant SurvivorColumns(shards, surviving, columns)
      invariant forall b :: 0 <= b < size ==> shards[e][b] == Dot(repair, columns[b], t)
    {
      var coeff := RepairCoefficient(c.coding[e], inv, c.k, t);
      forall b | 0 <= b < size
        ensures Dot(repair, columns[b], t + 1) == Add(shards[e][b], Mul(coeff, shards[surviving[t]][b]))
        ensures coeff == 0 ==> Dot(repair, columns[b], t + 1) == shards[e][b]
      {
        RepairStep(repair, columns[b], t, coeff, shards[e][b]);
      }
      if coeff != 0 {
        MulRegion(shards[e], shards[surviving[t]], coeff, size);
      }
    }
    forall b | 0 <= b < size
      ensures shards[e][b] == Dot(c.coding[e], Apply(inv, columns[b]), c.k)
    {
      RowTimesMatrix(c.coding[e], inv, repair, columns[b], c.k);
    }
  }

  /** Undoing the survivors' rows gives back the data. */
  lemma SurvivorsGiveData(c: Codec, inv: Matrix, surviving: seq<nat>, d: Vec, column: Vec)
    requires IsMatrix(c.coding, c.k + c.m, c.k) && IsMatrix(inv, c.k, c.k)
    requires |surviving| == c.k && forall i :: 0 <= i < c.k ==> surviving[i] < c.k + c.m
    requires LeftInverse(inv, Pick(c.coding, surviving), c.k)
    requires |d| == c.k == |column|
    requires forall t :: 0 <= t < c.k ==> column[t] == Dot(c.coding[surviving[t]], d, c.k)
    ensures Apply(inv, column) == d
  {
    hide Dot, Apply;
    assert column == Apply(Pick(c.coding, surviving), d);
  }

  lemma NoneErased(present: seq<bool>)
    requires Erased(present) == 0
    ensures forall i :: 0 <= i < |present| ==> present[i]
  {
    forall i | 0 <= i < |present|
      ensures present[i]
    {
      ErasedCounts(present, i);
      ErasedPrefixes(present, i + 1);
    }
  }

  lemma ErasedPrefixes(present: seq<bool>, i: nat)
    requires i <= |present|
    ensures Erased(present[..i]) <= Erased(present)
  {
    if i < |present| {
      ErasedCounts(present, i);
    } else {
      assert present[..i] == present;
    }
  }

  /** Reconstruct each erased shard in turn. */
  method RepairAll(c: Codec, shards: seq<array<byte>>, present: seq<bool>, surviving: seq<nat>, inv: Matrix,
                   size: nat, ghost columns: seq<Vec>)
    requires IsMatrix(c.coding, c.k + c.m, c.k) && IsMatrix(inv, c.k, c.k)
    requires Buffers(shards, c.k + c.m, size) && |present| == c.k + c.m
    requires |surviving| == c.k && forall i :: 0 <= i < c.k ==> surviving[i] < c.k + c.m && present[surviving[i]]
    requires |columns| == size && SurvivorColumns(shards, surviving, columns)
    modifies shards
    ensures forall i :: 0 <= i < c.k + c.m && present[i] ==> shards[i][..] == old(shards[i][..])
    ensures forall i, b :: 0 <= i < c.k + c.m && !present[i] && 0 <= b < size ==>
              shards[i][b] == Dot(c.coding[i], Apply(inv, columns[b]), c.k)
  {
    hide Dot, Apply;
    for e := 0 to c.k + c.m
      invariant forall i, b :: 0 <= i < c.k + c.m && present[i] && 0 <= b < size ==> shards[i][b] == old(shards[i][b])
      invariant forall i, b :: 0 <= i < e && !present[i] && 0 <= b < size ==>
                  shards[i][b] == Dot(c.coding[i], Apply(inv, columns[b]), c.k)
    {
      if !present[e] {
        RepairShard(c, shards, surviving, inv, e, size, columns);
      }
    }
  }

  /** Choose the survivors and invert their rows of the coding matrix. */
  method InvertSurvivors(c: Codec, present: seq<bool>) returns (surviving: seq<nat>, inverse: Matrix)
    requires IsCodec(c) && |present| == c.k + c.m && Erased(present) <= c.m
    ensures |surviving| == c.k && forall i :: 0 <= i < c.k ==> surviving[i] < c.k + c.m && present[surviving[i]]
    ensures IsMatrix(inverse, c.k, c.k) && LeftInverse(inverse, Pick(c.coding, surviving), c.k)
  {
    surviving := PickSurvivors(present, c.k);
    var inv := new byte[c.k, c.k];
    MaximumDistanceSeparable(c, surviving);
    var ok := InvertMatrix(Pick(c.coding, surviving), inv, c.k);
    assert ok;  // any k rows of the coding matrix are independent
    inverse := Rows(inv);
  }

  lemma DataFromSurvivors(c: Codec, inverse: Matrix, surviving: seq<nat>, data: Matrix, columns: seq<Vec>, b: nat)
    requires IsMatrix(c.coding, c.k + c.m, c.k) && IsMatrix(inverse, c.k, c.k) && IsMatrix(data, c.k, |columns|)
    requires |surviving| == c.k && forall i :: 0 <= i < c.k ==> surviving[i] < c.k + c.m
    requires LeftInverse(inverse, Pick(c.coding, surviving), c.k)
    requires b < |columns| && |columns[b]| == c.k
    requires forall t :: 0 <= t < c.k ==> columns[b][t] == CodeByte(c, data, surviving[t], b)
    ensures Apply(inverse, columns[b]) == Column(data, b)
  {
    hide Dot, Apply;
    SurvivorsGiveData(c, inverse, surviving, Column(data, b), columns[b]);
  }

  /** Reconstruct every erased shard, when no more than `m` are erased. */
  method RsDecode(c: Codec, shards: seq<array<byte>>, present: seq<bool>, size: nat, ghost data: Matrix)
    returns (rc: int)
    requires IsCodec(c) && Buffers(shards, c.k + c.m, size) && |present| == c.k + c.m
    requires IsMatrix(data, c.k, size)
    modifies shards
    ensures rc == if Erased(present) <= c.m then 0 else -1
    ensures forall i :: 0 <= i < c.k + c.m && (rc != 0 || present[i]) ==> shards[i][..] == old(shards[i][..])
    ensures rc == 0 && old(SurvivorsHold(c, data, shards, present)) ==>
              forall i :: 0 <= i < c.k + c.m ==> HoldsShard(c, data, shards[i], i)
  {
    hide Dot, Apply, IsCodec, LeftInverse, CodeByte;
    CodecShape(c);
    var erased := CountErased(present);
    if erased == 0 {
      NoneErased(present);
      return 0;
    }
    if erased > c.m {
      return -1;
    }
    var surviving, inverse := InvertSurvivors(c, present);
    ghost var columns := seq(size, b requires 0 <= b < size =>
      seq(c.k, t requires 0 <= t < c.k => old(shards[surviving[t]][b])));
    ghost var intact := SurvivorsHold(c, data, shards, present);
    RepairAll(c, shards, present, surviving, inverse, size, columns);
    if intact {
      forall i, b | 0 <= i < c.k + c.m && 0 <= b < size
        ensures shards[i][b] == CodeByte(c, data, i, b)
      {
        if present[i] {
          assert shards[i][..][b] == old(shards[i][..])[b];
        } else {
          DataFromSurvivors(c, inverse, surviving, data, columns, b);
          CodeByteIs(c, data, i, b);
        }
      }
    }
    rc := 0;
  }

  lemma CodeByteIs(c: Codec, data: Matrix, i: nat, b: nat)
    requires IsMatrix(c.coding, c.k + c.m, c.k) && i < c.k + c.m
    requires |data| == c.k && forall j :: 0 <= j < c.k ==> b < |data[j]|
    ensures CodeByte(c, data, i, b) == Dot(c.coding[i], Column(data, b), c.k)
  {
  }

  lemma CodecShape(c: Codec)
    requires IsCodec(c)
    ensures ValidParameters(c.k, c.m) && IsMatrix(c.coding, c.k + c.m, c.k)
  {
  }

  /** Every shard that is not erased holds its part of the codeword. */
  ghost predicate SurvivorsHold(c: Codec, data: Matrix, shards: seq<array<byte>>, present: seq<bool>)
    reads shards
    requires |shards| == |present| == c.k + c.m && IsMatrix(c.coding, c.k + c.m, c.k)
    requires forall i :: 0 <= i < |shards| ==> IsMatrix(data, c.k, shards[i].Length)
  {
    forall i :: 0 <= i < |shards| && present[i] ==> HoldsShard(c, data, shards[i], i)
  }
}
