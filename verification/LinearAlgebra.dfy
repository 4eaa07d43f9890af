/** Vectors and matrices over GF(2^8): dot products, kernels, and the row operations of
    Gaussian elimination. */
module LinearAlgebra {
  import opened Gf256

  type Vec = Bytes
  type Matrix = seq<Vec>

  ghost predicate IsMatrix(m: Matrix, rows: nat, cols: nat) {
    |m| == rows && forall i :: 0 <= i < rows ==> |m[i]| == cols
  }

  function Zeros(n: nat): (v: Vec)
    ensures |v| == n && forall i :: 0 <= i < n ==> v[i] == 0
  {
    seq(n, _ => 0)
  }

  function Unit(n: nat, k: nat): (v: Vec)
    ensures |v| == n && forall i :: 0 <= i < n ==> v[i] == if i == k then 1 else 0
  {
    seq(n, i => if i == k then 1 else 0)
  }

  function Identity(n: nat): Matrix {
    seq(n, i requires 0 <= i < n => Unit(n, i))
  }

  function Column(m: Matrix, c: nat): (v: Vec)
    requires forall i :: 0 <= i < |m| ==> c < |m[i]|
    ensures |v| == |m| && forall i :: 0 <= i < |m| ==> v[i] == m[i][c]
  {
    seq(|m|, i requires 0 <= i < |m| => m[i][c])
  }

  /** The sum of the first `n` products u[i] * v[i]. */
  function Dot(u: Vec, v: Vec, n: nat): byte
    requires n <= |u| && n <= |v|
  {
    if n == 0 then 0
    else GfAdd(Dot(u, v, n - 1), GfMul(u[n - 1], v[n - 1]))
  }

  function Apply(m: Matrix, v: Vec): (r: Vec)
    requires IsMatrix(m, |m|, |v|)
    ensures |r| == |m| && forall i :: 0 <= i < |m| ==> r[i] == Dot(m[i], v, |v|)
  {
    seq(|m|, i requires 0 <= i < |m| => Dot(m[i], v, |v|))
  }

  function MatMul(a: Matrix, b: Matrix, n: nat): (p: Matrix)
    requires IsMatrix(a, n, n) && IsMatrix(b, n, n)
    ensures IsMatrix(p, n, n)
    ensures forall i, j :: 0 <= i < n && 0 <= j < n ==> p[i][j] == Dot(a[i], Column(b, j), n)
  {
    seq(n, i requires 0 <= i < n =>
      seq(n, j requires 0 <= j < n => Dot(a[i], Column(b, j), n)))
  }

  ghost predicate InKernel(m: Matrix, v: Vec)
    requires IsMatrix(m, |m|, |v|)
  {
    forall i :: 0 <= i < |m| ==> Dot(m[i], v, |v|) == 0
  }

  /** A square matrix is singular when some non-zero vector is in its kernel. */
  ghost predicate Singular(m: Matrix)
    requires IsMatrix(m, |m|, |m|)
  {
    exists v: Vec :: |v| == |m| && v != Zeros(|m|) && InKernel(m, v)
  }

  ghost predicate SameKernel(m: Matrix, m': Matrix, cols: nat)
    requires IsMatrix(m, |m|, cols) && IsMatrix(m', |m'|, cols)
  {
    forall v: Vec :: |v| == cols ==> (InKernel(m, v) <==> InKernel(m', v))
  }

  // ---- Dot products ----

  lemma {:induction false} DotOfEqual(u: Vec, u': Vec, v: Vec, v': Vec, n: nat)
    requires n <= |u| && n <= |v| && n <= |u'| && n <= |v'|
    requires forall i :: 0 <= i < n ==> u[i] == u'[i] && v[i] == v'[i]
    ensures Dot(u, v, n) == Dot(u', v', n)
  {
    hide GfMul;
    if n > 0 { DotOfEqual(u, u', v, v', n - 1); }
  }

  lemma {:induction false} DotComm(u: Vec, v: Vec, n: nat)
    requires n <= |u| && n <= |v|
    ensures Dot(u, v, n) == Dot(v, u, n)
  {
    hide GfMul;
    if n > 0 {
      DotComm(u, v, n - 1);
      MulComm(u[n - 1], v[n - 1]);
    }
  }

  /** A dot product whose second factor has a single non-zero entry, `c` at `k`. */
  lemma {:induction false} DotOfSingle(u: Vec, v: Vec, k: nat, n: nat)
    requires n <= |u| && n <= |v|
    requires forall i :: 0 <= i < n && i != k ==> v[i] == 0
    ensures Dot(u, v, n) == if k < n then GfMul(u[k], v[k]) else 0
  {
    hide GfMul;
    if n > 0 {
      DotOfSingle(u, v, k, n - 1);
      MulZero(u[n - 1]);
    }
  }

  lemma DotUnit(u: Vec, k: nat, n: nat)
    requires k < n <= |u|
    ensures Dot(u, Unit(n, k), n) == u[k] && Dot(Unit(n, k), u, n) == u[k]
  {
    hide GfMul;
    DotOfSingle(u, Unit(n, k), k, n);
    DotComm(u, Unit(n, k), n);
    MulOne(u[k]);
  }

  lemma DotZeros(u: Vec, n: nat)
    requires n <= |u|
    ensures Dot(u, Zeros(n), n) == 0
  {
    DotOfSingle(u, Zeros(n), n, n);
  }

  lemma {:induction false} DotConcat(u: Vec, u': Vec, v: Vec, v': Vec, k: nat)
    requires |u| == |v| && k <= |u'| && k <= |v'|
    ensures Dot(u + u', v + v', |u| + k) == GfAdd(Dot(u, v, |u|), Dot(u', v', k))
  {
    hide GfMul;
    if k == 0 {
      DotOfEqual(u + u', u, v + v', v, |u|);
    } else {
      DotConcat(u, u', v, v', k - 1);
    }
  }

  // ---- Row operations ----

  function ScaleRow(u: Vec, c: byte): (r: Vec)
    ensures |r| == |u| && forall j :: 0 <= j < |u| ==> r[j] == GfMul(u[j], c)
  {
    seq(|u|, j requires 0 <= j < |u| => GfMul(u[j], c))
  }

  /** `u` minus `factor` times `p`. */
  function SubtractRow(u: Vec, factor: byte, p: Vec): (r: Vec)
    requires |u| == |p|
    ensures |r| == |u| && forall j :: 0 <= j < |u| ==> r[j] == GfSub(u[j], GfMul(factor, p[j]))
  {
    seq(|u|, j requires 0 <= j < |u| => GfSub(u[j], GfMul(factor, p[j])))
  }

  lemma {:induction false} DotScale(u: Vec, c: byte, v: Vec, n: nat)
    requires n <= |u| && n <= |v|
    ensures Dot(ScaleRow(u, c), v, n) == GfMul(c, Dot(u, v, n))
  {
    hide GfMul, GfAdd;
    MulZero(c);
    if n > 0 {
      DotScale(u, c, v, n - 1);
      MulComm(u[n - 1], c);
      MulAssoc(c, u[n - 1], v[n - 1]);
      MulDistrib(Dot(u, v, n - 1), GfMul(u[n - 1], v[n - 1]), c);
    }
  }

  lemma {:induction false} DotSubtract(u: Vec, factor: byte, p: Vec, v: Vec, n: nat)
    requires n <= |u| == |p| && n <= |v|
    ensures Dot(SubtractRow(u, factor, p), v, n) == GfSub(Dot(u, v, n), GfMul(factor, Dot(p, v, n)))
  {
    hide GfMul, SubtractRow, GfAdd, GfSub;
    MulZero(factor);
    SubIsAdd(Dot(u, v, n), GfMul(factor, Dot(p, v, n)));
    if n > 0 {
      var k := n - 1;
      DotSubtract(u, factor, p, v, k);
      MulDistrib(u[k], GfMul(factor, p[k]), v[k]);
      MulAssoc(factor, p[k], v[k]);
      MulDistrib(Dot(p, v, k), GfMul(p[k], v[k]), factor);
      SubIsAdd(u[k], GfMul(factor, p[k]));
      SubIsAdd(Dot(u, v, k), GfMul(factor, Dot(p, v, k)));
      AddInterchange(Dot(u, v, k), GfMul(factor, Dot(p, v, k)), GfMul(u[k], v[k]), GfMul(factor, GfMul(p[k], v[k])));
    } else {
      AddZero(0);
    }
  }

  /** Swapping two rows keeps the kernel. */
  lemma SwapKeepsKernel(m: Matrix, i: nat, k: nat, cols: nat)
    requires IsMatrix(m, |m|, cols) && i < |m| && k < |m|
    ensures SameKernel(m, m[i := m[k]][k := m[i]], cols)
  {
    hide GfMul, Dot;
    var m' := m[i := m[k]][k := m[i]];
    forall v: Vec | |v| == cols ensures InKernel(m, v) <==> InKernel(m', v) {
      if InKernel(m', v) {
        assert m'[i] == m[k] && m'[k] == m[i];
        forall r | 0 <= r < |m| ensures Dot(m[r], v, |v|) == 0 {
          assert r != i && r != k ==> m'[r] == m[r];
        }
      }
    }
  }

  /** Scaling a row by a non-zero factor keeps the kernel. */
  lemma ScaleKeepsKernel(m: Matrix, i: nat, c: byte, cols: nat)
    requires IsMatrix(m, |m|, cols) && i < |m| && c != 0
    ensures SameKernel(m, m[i := ScaleRow(m[i], c)], cols)
  {
    hide GfMul, Dot, ScaleRow;
    var m' := m[i := ScaleRow(m[i], c)];
    forall v: Vec | |v| == cols ensures InKernel(m, v) <==> InKernel(m', v) {
      DotScale(m[i], c, v, cols);
      MulNonZero(c, Dot(m[i], v, cols));
      assert forall r :: 0 <= r < |m| && r != i ==> m'[r] == m[r];
      assert Dot(m'[i], v, |v|) == 0 <==> Dot(m[i], v, |v|) == 0;
    }
  }

  /** Subtracting a multiple of another row keeps the kernel. */
  lemma SubtractKeepsKernel(m: Matrix, i: nat, factor: byte, k: nat, cols: nat)
    requires IsMatrix(m, |m|, cols) && i < |m| && k < |m| && i != k
    ensures SameKernel(m, m[i := SubtractRow(m[i], factor, m[k])], cols)
  {
    hide GfMul, Dot, SubtractRow;
    var m' := m[i := SubtractRow(m[i], factor, m[k])];
    forall v: Vec | |v| == cols ensures InKernel(m, v) <==> InKernel(m', v) {
      DotSubtract(m[i], factor, m[k], v, cols);
      MulZero(factor);
      assert m'[k] == m[k];
      assert forall r :: 0 <= r < |m| && r != i ==> m'[r] == m[r];
      assert Dot(m[k], v, |v|) == 0 ==> (Dot(m'[i], v, |v|) == 0 <==> Dot(m[i], v, |v|) == 0);
    }
  }

  // ---- The augmented matrix [A | I] ----

  ghost function Augmented(a: Matrix): (g: Matrix)
    requires IsMatrix(a, |a|, |a|)
    ensures IsMatrix(g, |a|, 2 * |a|)
  {
    seq(|a|, i requires 0 <= i < |a| => a[i] + Unit(|a|, i))
  }

  /** The right half of a matrix of 2n columns. */
  ghost function RightHalf(g: Matrix, n: nat): (r: Matrix)
    requires IsMatrix(g, n, 2 * n)
    ensures IsMatrix(r, n, n)
  {
    seq(n, i requires 0 <= i < n => g[i][n..])
  }

  /** The first `c` columns are those of the identity. */
  ghost predicate Cleared(g: Matrix, c: nat)
    requires forall i :: 0 <= i < |g| ==> c <= |g[i]|
  {
    forall i, j :: 0 <= i < |g| && 0 <= j < c ==> g[i][j] == if i == j then 1 else 0
  }

  /** (v, w) is in the kernel of [A | I] exactly when w is A times v. */
  lemma AugmentedKernel(a: Matrix, v: Vec, w: Vec)
    requires IsMatrix(a, |a|, |a|) && |v| == |w| == |a|
    ensures InKernel(Augmented(a), v + w) <==> w == Apply(a, v)
  {
    hide GfMul, Dot;
    var n := |a|;
    var g := Augmented(a);
    forall i | 0 <= i < n ensures Dot(g[i], v + w, 2 * n) == GfAdd(Dot(a[i], v, n), w[i]) {
      DotConcat(a[i], Unit(n, i), v, w, n);
      DotUnit(w, i, n);
    }
    if InKernel(g, v + w) {
      forall i | 0 <= i < n ensures w[i] == Dot(a[i], v, n) {
        assert Dot(g[i], v + w, |v + w|) == 0;
        AddZeroIff(Dot(a[i], v, n), w[i]);
      }
    }
    if w == Apply(a, v) {
      forall i | 0 <= i < |g| ensures Dot(g[i], v + w, |v + w|) == 0 {
        AddZeroIff(Dot(a[i], v, n), w[i]);
      }
    }
  }

  /** The kernel of a matrix whose left half is the identity. */
  lemma ReducedKernel(g: Matrix, n: nat, v: Vec, w: Vec)
    requires IsMatrix(g, n, 2 * n) && Cleared(g, n) && |v| == |w| == n
    ensures InKernel(g, v + w) <==> v == Apply(RightHalf(g, n), w)
  {
    hide GfMul, Dot;
    var r := RightHalf(g, n);
    forall i | 0 <= i < n ensures Dot(g[i], v + w, 2 * n) == GfAdd(v[i], Dot(r[i], w, n)) {
      assert g[i] == Unit(n, i) + r[i];
      DotConcat(Unit(n, i), r[i], v, w, n);
      DotUnit(v, i, n);
    }
    if InKernel(g, v + w) {
      forall i | 0 <= i < n ensures v[i] == Dot(r[i], w, n) {
        assert Dot(g[i], v + w, |v + w|) == 0;
        AddZeroIff(v[i], Dot(r[i], w, n));
      }
    }
    if v == Apply(r, w) {
      forall i | 0 <= i < |g| ensures Dot(g[i], v + w, |v + w|) == 0 {
        AddZeroIff(v[i], Dot(r[i], w, n));
      }
    }
  }

  ghost predicate Undoes(x: Matrix, y: Matrix, v: Vec)
    requires IsMatrix(x, |v|, |v|) && IsMatrix(y, |v|, |v|)
  {
    Apply(x, Apply(y, v)) == v
  }

  /** `inv` undoes `a` on every vector, from both sides. */
  ghost predicate Inverts(inv: Matrix, a: Matrix)
    requires IsMatrix(a, |a|, |a|) && IsMatrix(inv, |a|, |a|)
  {
    && (forall v: Vec | |v| == |a| :: Undoes(inv, a, v))
    && (forall v: Vec | |v| == |a| :: Undoes(a, inv, v))
  }

  lemma InverseUndone(inv: Matrix, a: Matrix, v: Vec)
    requires IsMatrix(a, |a|, |a|) && IsMatrix(inv, |a|, |a|) && Inverts(inv, a) && |v| == |a|
    ensures Apply(a, Apply(inv, v)) == v
    ensures Apply(inv, Apply(a, v)) == v
  {
    hide Apply;
    assert Undoes(inv, a, v) && Undoes(a, inv, v);
  }

  /** When the row operations have turned the left half of [A | I] into the identity, the right
      half is the inverse of A. */
  lemma ReducedIsInverse(a: Matrix, g: Matrix)
    requires IsMatrix(a, |a|, |a|) && IsMatrix(g, |a|, 2 * |a|)
    requires SameKernel(Augmented(a), g, 2 * |a|) && Cleared(g, |a|)
    ensures Inverts(RightHalf(g, |a|), a)
  {
    hide GfMul, Dot, InKernel, Cleared;
    var n := |a|;
    var inv := RightHalf(g, n);
    forall v: Vec | |v| == n ensures Undoes(inv, a, v) && Undoes(a, inv, v) {
      var w := Apply(a, v);
      AugmentedKernel(a, v, w);
      assert |v + w| == 2 * n;
      ReducedKernel(g, n, v, w);
      var u := Apply(inv, v);
      ReducedKernel(g, n, u, v);
      assert |u + v| == 2 * n;
      AugmentedKernel(a, u, v);
    }
  }

  /** When the first c columns are cleared and column c has no pivot at or below row c, that column
      is a combination of the earlier ones, and A is singular. */
  lemma NoPivotIsSingular(a: Matrix, g: Matrix, c: nat)
    requires IsMatrix(a, |a|, |a|) && IsMatrix(g, |a|, 2 * |a|) && c < |a|
    requires SameKernel(Augmented(a), g, 2 * |a|) && Cleared(g, c)
    requires forall i :: c <= i < |a| ==> g[i][c] == 0
    ensures Singular(a)
  {
    hide GfMul, Dot, InKernel;
    var n := |a|;
    var v := seq(n, j requires 0 <= j < n => if j < c then g[j][c] else if j == c then 1 else 0);
    assert v[c] == 1 && v != Zeros(n);
    forall i | 0 <= i < n ensures Dot(g[i], v + Zeros(n), 2 * n) == 0 {
      DependentRow(g[i], v, i, c);
      assert g[i] == g[i][..n] + g[i][n..];
      DotConcat(g[i][..n], g[i][n..], v, Zeros(n), n);
      DotZeros(g[i][n..], n);
    }
    assert |v + Zeros(n)| == 2 * n;
    assert InKernel(g, v + Zeros(n)) by { KernelFromDots(g, v + Zeros(n)); }
    AugmentedKernel(a, v, Zeros(n));
    assert InKernel(a, v) by { KernelOfApply(a, v); }
  }

  lemma KernelFromDots(g: Matrix, v: Vec)
    requires IsMatrix(g, |g|, |v|)
    requires forall i :: 0 <= i < |g| ==> Dot(g[i], v, |v|) == 0
    ensures InKernel(g, v)
  {}

  lemma KernelOfApply(a: Matrix, v: Vec)
    requires IsMatrix(a, |a|, |v|)
    ensures InKernel(a, v) <==> Apply(a, v) == Zeros(|a|)
  {
    hide GfMul, Dot;
    if Apply(a, v) == Zeros(|a|) {
      forall i | 0 <= i < |a| ensures Dot(a[i], v, |v|) == 0 {
        assert Apply(a, v)[i] == 0;
      }
    }
  }

  lemma DependentRow(row: Vec, v: Vec, i: nat, c: nat)
    requires c < |v| <= |row| && i < |v|
    requires forall j :: 0 <= j < c ==> row[j] == if i == j then 1 else 0
    requires v[c] == 1 && forall j :: c < j < |v| ==> v[j] == 0
    requires if i < c then v[i] == row[c] else row[c] == 0
    ensures Dot(row[..|v|], v, |v|) == 0
  {
    hide GfMul;
    var n := |v|;
    var r := row[..n];
    DotComm(v, r, c);
    DotOfSingle(v, r, i, c);
    assert Dot(r, v, c) == if i < c then row[c] else 0 by {
      if i < c { MulOne(v[i]); }
    }
    MulOne(r[c]);
    assert Dot(r, v, c + 1) == 0;
    DotTail(r, v, c + 1, n);
  }

  lemma {:induction false} DotTail(u: Vec, v: Vec, lo: nat, n: nat)
    requires lo <= n <= |u| && n <= |v|
    requires forall j :: lo <= j < n ==> v[j] == 0
    ensures Dot(u, v, n) == Dot(u, v, lo)
  {
    hide GfMul;
    if lo < n {
      DotTail(u, v, lo, n - 1);
      MulZero(u[n - 1]);
    }
  }

  /** A matrix with an inverse is not singular. */
  lemma InvertibleIsNotSingular(inv: Matrix, a: Matrix)
    requires IsMatrix(a, |a|, |a|) && IsMatrix(inv, |a|, |a|) && Inverts(inv, a)
    ensures !Singular(a)
  {
    hide GfMul, Dot, InKernel, Apply, Zeros, Inverts;
    var n := |a|;
    forall v: Vec | |v| == n && InKernel(a, v) ensures v == Zeros(n) {
      KernelOfApply(a, v);
      InverseUndone(inv, a, v);
      forall i | 0 <= i < n ensures v[i] == Zeros(n)[i] { DotZeros(inv[i], n); }
    }
  }

  /** Two-sided inverse as matrix products. */
  lemma InverseProducts(inv: Matrix, a: Matrix)
    requires IsMatrix(a, |a|, |a|) && IsMatrix(inv, |a|, |a|) && Inverts(inv, a)
    ensures MatMul(inv, a, |a|) == Identity(|a|)
    ensures MatMul(a, inv, |a|) == Identity(|a|)
  {
    ProductIsIdentity(inv, a);
    ProductIsIdentity(a, inv);
  }

  lemma ProductIsIdentity(x: Matrix, y: Matrix)
    requires IsMatrix(x, |x|, |x|) && IsMatrix(y, |x|, |x|)
    requires forall v: Vec | |v| == |x| :: Undoes(x, y, v)
    ensures MatMul(x, y, |x|) == Identity(|x|)
  {
    hide GfMul, Dot, Unit, Column, Apply, MatMul;
    var n := |x|;
    forall i | 0 <= i < n ensures MatMul(x, y, n)[i] == Identity(n)[i] {
      forall j | 0 <= j < n ensures MatMul(x, y, n)[i][j] == Unit(n, i)[j] {
        assert Undoes(x, y, Unit(n, j));
        ProductEntry(x, y, i, j);
      }
    }
  }

  lemma ProductEntry(x: Matrix, y: Matrix, i: nat, j: nat)
    requires IsMatrix(x, |x|, |x|) && IsMatrix(y, |x|, |x|) && i < |x| && j < |x|
    requires Undoes(x, y, Unit(|x|, j))
    ensures MatMul(x, y, |x|)[i][j] == Unit(|x|, i)[j]
  {
    hide GfMul, Dot, Unit, Column, Apply, MatMul;
    ApplyUnit(y, j);
    assert Apply(x, Column(y, j))[i] == Unit(|x|, j)[i];
  }

  lemma ApplyUnit(y: Matrix, j: nat)
    requires IsMatrix(y, |y|, |y|) && j < |y|
    ensures Apply(y, Unit(|y|, j)) == Column(y, j)
  {
    hide GfMul, Dot;
    forall k | 0 <= k < |y| ensures Apply(y, Unit(|y|, j))[k] == y[k][j] {
      DotUnit(y[k], j, |y|);
    }
  }

  /** A non-singular system has at most one solution. */
  lemma SolutionUnique(a: Matrix, x: Vec, y: Vec)
    requires IsMatrix(a, |a|, |a|) && !Singular(a) && |x| == |y| == |a|
    requires Apply(a, x) == Apply(a, y)
    ensures x == y
  {
    hide GfMul, Dot, SubtractRow;
    var n := |a|;
    var d := SubtractRow(x, 1, y);
    forall i | 0 <= i < n ensures Dot(a[i], d, n) == 0 {
      DotComm(a[i], d, n);
      DotComm(a[i], x, n);
      DotComm(a[i], y, n);
      DotSubtract(x, 1, y, a[i], n);
      MulOne(Dot(y, a[i], n));
      assert Apply(a, x)[i] == Apply(a, y)[i];
      AddZeroIff(Dot(x, a[i], n), Dot(y, a[i], n));
    }
    assert InKernel(a, d);
    forall i | 0 <= i < n ensures x[i] == y[i] {
      assert d[i] == 0;
      MulOne(y[i]);
      AddZeroIff(x[i], y[i]);
    }
  }
}
