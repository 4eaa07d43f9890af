/** The Cauchy generator matrix, the encoder, the decoder and the Gauss-Jordan inverter of
    `reed_solomon.rs`. */
module ReedSolomon {
  import opened Options
  import opened Gf256
  import opened LinearAlgebra

  const NUM_DATA_SHREDS: nat := 32
  const NUM_CODE_SHREDS: nat := 32

  // ---- Gauss-Jordan elimination, in place on the augmented matrix ----

  ghost function Row(a: array2<byte>, i: nat): (r: Vec)
    requires i < a.Length0
    reads a
    ensures |r| == a.Length1 && forall j :: 0 <= j < a.Length1 ==> r[j] == a[i, j]
  {
    seq(a.Length1, j requires 0 <= j < a.Length1 reads a => a[i, j])
  }

  ghost function Rows(a: array2<byte>): (m: Matrix)
    reads a
    ensures IsMatrix(m, a.Length0, a.Length1)
    ensures forall i, j :: 0 <= i < a.Length0 && 0 <= j < a.Length1 ==> m[i][j] == a[i, j]
  {
    seq(a.Length0, i requires 0 <= i < a.Length0 reads a => Row(a, i))
  }

  /** `aug.swap(i, k)` */
  method SwapRows(a: array2<byte>, i: nat, k: nat)
    requires i < a.Length0 && k < a.Length0
    modifies a
    ensures Rows(a) == old(Rows(a)[i := Rows(a)[k]][k := Rows(a)[i]])
  {
    for j := 0 to a.Length1
      invariant forall r, c :: 0 <= r < a.Length0 && 0 <= c < a.Length1 ==>
        a[r, c] == if c < j then old(a[if r == k then i else if r == i then k else r, c]) else old(a[r, c])
    {
      a[i, j], a[k, j] := a[k, j], a[i, j];
    }
    EqualRows(Rows(a), old(Rows(a)[i := Rows(a)[k]][k := Rows(a)[i]]), a.Length0, a.Length1);
  }

  lemma EqualRows(m: Matrix, m': Matrix, rows: nat, cols: nat)
    requires IsMatrix(m, rows, cols) && IsMatrix(m', rows, cols)
    requires forall i, j :: 0 <= i < rows && 0 <= j < cols ==> m[i][j] == m'[i][j]
    ensures m == m'
  {
    forall i | 0 <= i < rows ensures m[i] == m'[i] {
      assert forall j :: 0 <= j < cols ==> m[i][j] == m'[i][j];
    }
  }

  /** Multiplies row `i` by `c`. */
  method ScaleRowInPlace(a: array2<byte>, i: nat, c: byte)
    requires i < a.Length0
    modifies a
    ensures Rows(a) == old(Rows(a)[i := ScaleRow(Rows(a)[i], c)])
  {
    hide GfMul;
    for j := 0 to a.Length1
      invariant forall r, k :: 0 <= r < a.Length0 && 0 <= k < a.Length1 ==>
        a[r, k] == if r == i && k < j then GfMul(old(a[r, k]), c) else old(a[r, k])
    {
      a[i, j] := GfMul(a[i, j], c);
    }
    EqualRows(Rows(a), old(Rows(a)[i := ScaleRow(Rows(a)[i], c)]), a.Length0, a.Length1);
  }

  /** Subtracts `factor` times row `p` from row `i`. */
  method SubtractRowInPlace(a: array2<byte>, i: nat, factor: byte, p: nat)
    requires i < a.Length0 && p < a.Length0 && i != p
    modifies a
    ensures Rows(a) == old(Rows(a)[i := SubtractRow(Rows(a)[i], factor, Rows(a)[p])])
  {
    hide GfMul, GfSub;
    for j := 0 to a.Length1
      invariant forall r, k :: 0 <= r < a.Length0 && 0 <= k < a.Length1 ==>
        a[r, k] == if r == i && k < j then GfSub(old(a[r, k]), GfMul(factor, old(a[p, k]))) else old(a[r, k])
    {
      a[i, j] := GfSub(a[i, j], GfMul(factor, a[p, j]));
    }
    EqualRows(Rows(a), old(Rows(a)[i := SubtractRow(Rows(a)[i], factor, Rows(a)[p])]), a.Length0, a.Length1);
  }

  /** Lays out [matrix | I]. */
  method Augment(matrix: Matrix) returns (aug: array2<byte>)
    requires IsMatrix(matrix, |matrix|, |matrix|)
    ensures fresh(aug) && aug.Length0 == |matrix| && aug.Length1 == 2 * |matrix|
    ensures Rows(aug) == Augmented(matrix)
  {
    var n := |matrix|;
    aug := new byte[n, 2 * n]((_, _) => 0);
    for i := 0 to n
      invariant forall r, c :: 0 <= r < n && 0 <= c < 2 * n ==>
        aug[r, c] == if r < i then Augmented(matrix)[r][c] else 0
    {
      for j := 0 to n
        invariant forall r, c :: 0 <= r < n && 0 <= c < 2 * n ==>
          aug[r, c] == if r < i then Augmented(matrix)[r][c] else if r == i && c < j then matrix[i][c] else 0
      {
        aug[i, j] := matrix[i][j];
      }
      aug[i, n + i] := 1;
    }
    EqualRows(Rows(aug), Augmented(matrix), n, 2 * n);
  }

  /** Clears column `col` in every row but `col`, whose entry there is 1. */
  method ClearColumn(aug: array2<byte>, col: nat)
    requires col < aug.Length0 && aug.Length1 == 2 * aug.Length0
    requires Cleared(Rows(aug), col) && aug[col, col] == 1
    modifies aug
    ensures SameKernel(old(Rows(aug)), Rows(aug), aug.Length1)
    ensures Cleared(Rows(aug), col + 1)
  {
    hide GfMul, InKernel;
    var n := aug.Length0;
    for row := 0 to n
      invariant SameKernel(old(Rows(aug)), Rows(aug), 2 * n)
      invariant Cleared(Rows(aug), col) && aug[col, col] == 1
      invariant forall i :: 0 <= i < row && i != col ==> aug[i, col] == 0
    {
      if row != col && aug[row, col] != 0 {
        var factor := aug[row, col];
        ghost var before := Rows(aug);
        SubtractRowInPlace(aug, row, factor, col);
        SubtractKeepsKernel(before, row, factor, col, 2 * n);
        ClearedAfterSubtract(before, row, col);
        assert Rows(aug)[row][col] == 0;
      }
    }
  }

  /** Eliminating an entry with the pivot row keeps the columns already cleared. */
  lemma ClearedAfterSubtract(g: Matrix, row: nat, col: nat)
    requires IsMatrix(g, |g|, 2 * |g|) && row < |g| && col < |g| && row != col
    requires Cleared(g, col) && g[col][col] == 1
    ensures var g' := g[row := SubtractRow(g[row], g[row][col], g[col])];
      Cleared(g', col) && g'[row][col] == 0 && g'[col] == g[col]
  {
    hide GfMul;
    var f := g[row][col];
    MulOne(f);
    MulZero(f);
  }

  /** The pivot search of one column: the first row at or below `col` with a non-zero entry. */
  method FindPivot(aug: array2<byte>, col: nat) returns (pivot: Option<nat>)
    requires col < aug.Length0 && aug.Length1 == 2 * aug.Length0
    ensures pivot.Some? ==> col <= pivot.value < aug.Length0 && aug[pivot.value, col] != 0
    ensures pivot.Some? ==> forall i :: col <= i < pivot.value ==> aug[i, col] == 0
    ensures pivot.None? ==> forall i :: col <= i < aug.Length0 ==> aug[i, col] == 0
  {
    for row := col to aug.Length0
      invariant forall i :: col <= i < row ==> aug[i, col] == 0
    {
      if aug[row, col] != 0 {
        return Some(row);
      }
    }
    return None;
  }

  /** Swaps the pivot row into place and scales it to have a leading 1. */
  method InstallPivot(aug: array2<byte>, col: nat, pivot: nat)
    requires col <= pivot < aug.Length0 && aug.Length1 == 2 * aug.Length0
    requires Cleared(Rows(aug), col) && aug[pivot, col] != 0
    modifies aug
    ensures SameKernel(old(Rows(aug)), Rows(aug), aug.Length1)
    ensures Cleared(Rows(aug), col) && aug[col, col] == 1
  {
    hide GfMul, GfInv, InKernel;
    ghost var n := aug.Length0;
    SwapKeepsKernel(Rows(aug), col, pivot, 2 * n);
    SwapRows(aug, col, pivot);
    ghost var swapped := Rows(aug);
    assert Cleared(swapped, col);
    assert aug[col, col] == swapped[col][col] != 0;
    var inv := GfInv(aug[col, col]);
    MulInv(aug[col, col]);
    ScaleKeepsKernel(swapped, col, inv, 2 * n);
    ScaleRowInPlace(aug, col, inv);
    MulZero(inv);
    assert Rows(aug)[col][col] == 1;
  }

  /** Copies out the right half of the augmented matrix. */
  method CopyRightHalf(aug: array2<byte>) returns (inv: Matrix)
    requires aug.Length1 == 2 * aug.Length0
    ensures inv == RightHalf(Rows(aug), aug.Length0)
  {
    var n := aug.Length0;
    inv := seq(n, _ => seq(n, _ => 0));
    for i := 0 to n
      invariant IsMatrix(inv, n, n)
      invariant forall r, c :: 0 <= r < i && 0 <= c < n ==> inv[r][c] == aug[r, n + c]
    {
      for j := 0 to n
        invariant IsMatrix(inv, n, n)
        invariant forall r, c :: 0 <= r < i && 0 <= c < n ==> inv[r][c] == aug[r, n + c]
        invariant forall c :: 0 <= c < j ==> inv[i][c] == aug[i, n + c]
      {
        inv := inv[i := inv[i][j := aug[i, n + j]]];
      }
    }
    EqualRows(inv, RightHalf(Rows(aug), n), n, n);
  }

  /** Inverts a square matrix. It fails exactly on the singular ones. */
  method GfMatrixInvert(matrix: Matrix) returns (result: Option<Matrix>)
    requires IsMatrix(matrix, |matrix|, |matrix|)
    ensures result.None? <==> Singular(matrix)
    ensures result.Some? ==> IsMatrix(result.value, |matrix|, |matrix|) && Inverts(result.value, matrix)
    ensures result.Some? ==>
      && MatMul(result.value, matrix, |matrix|) == Identity(|matrix|)
      && MatMul(matrix, result.value, |matrix|) == Identity(|matrix|)
  {
    hide InKernel, Inverts, Singular, MatMul, Identity, GfInv;
    var n := |matrix|;
    var aug := Augment(matrix);
    for col := 0 to n
      invariant SameKernel(Augmented(matrix), Rows(aug), 2 * n)
      invariant Cleared(Rows(aug), col)
    {
      var pivot := FindPivot(aug, col);
      if pivot.None? {
        NoPivotIsSingular(matrix, Rows(aug), col);
        return None;
      }
      InstallPivot(aug, col, pivot.value);
      ClearColumn(aug, col);
    }
    var inv := CopyRightHalf(aug);
    ReducedIsInverse(matrix, Rows(aug));
    InvertibleIsNotSingular(inv, matrix);
    InverseProducts(inv, matrix);
    return Some(inv);
  }

  // ---- Generator matrix and encoder ----

  /** The points y_j of the Cauchy matrix. */
  function Points(numData: nat): (ys: Vec)
    ensures |ys| == numData && forall j :: 0 <= j < numData ==> ys[j] == U8(numData + j)
  {
    seq(numData, j requires 0 <= j < numData => U8(numData + j))
  }

  /** The row 1 / (x + y_j) of weights. */
  function CauchyRow(x: byte, ys: Vec): (r: Vec)
    ensures |r| == |ys| && forall j :: 0 <= j < |ys| ==> r[j] == GfInv(GfAdd(x, ys[j]))
  {
    seq(|ys|, j requires 0 <= j < |ys| => GfInv(GfAdd(x, ys[j])))
  }

  function Cauchy(numData: nat, numCode: nat): (m: Matrix)
    ensures IsMatrix(m, numCode, numData)
    ensures forall i :: 0 <= i < numCode ==> m[i] == CauchyRow(U8(i), Points(numData))
  {
    seq(numCode, i requires 0 <= i < numCode => CauchyRow(U8(i), Points(numData)))
  }

  method GenerateCauchyMatrix(numData: nat, numCode: nat) returns (matrix: Matrix)
    ensures IsMatrix(matrix, numCode, numData)
    ensures forall i, j :: 0 <= i < numCode && 0 <= j < numData ==>
      matrix[i][j] == GfInv(GfAdd(U8(i), U8(numData + j)))
    ensures matrix == Cauchy(numData, numCode)
  {
    hide GfInv, GfAdd, U8;
    matrix := seq(numCode, _ => seq(numData, _ => 0));
    for i := 0 to numCode
      invariant IsMatrix(matrix, numCode, numData)
      invariant forall r :: 0 <= r < i ==> matrix[r] == Cauchy(numData, numCode)[r]
    {
      for j := 0 to numData
        invariant IsMatrix(matrix, numCode, numData)
        invariant forall r :: 0 <= r < i ==> matrix[r] == Cauchy(numData, numCode)[r]
        invariant forall c :: 0 <= c < j ==> matrix[i][c] == Cauchy(numData, numCode)[i][c]
      {
        var x := U8(i);
        var y := U8(numData + j);
        matrix := matrix[i := matrix[i][j := GfInv(GfAdd(x, y))]];
      }
    }
  }

  /** Every shred reaches as far as the first one does: what `encode` and `decode` index by. */
  ghost predicate Rectangular(shreds: Matrix) {
    |shreds| > 0 && forall i :: 0 <= i < |shreds| ==> |shreds[0]| <= |shreds[i]|
  }

  /** One code shred: at each column, the weighted sum of the data shreds' bytes. */
  function CodeShred(data: Matrix, weights: Vec): (r: Vec)
    requires Rectangular(data) && |weights| >= |data|
    ensures |r| == |data[0]|
    ensures forall col :: 0 <= col < |data[0]| ==> r[col] == Dot(Column(data, col), weights, |data|)
  {
    seq(|data[0]|, col requires 0 <= col < |data[0]| => Dot(Column(data, col), weights, |data|))
  }

  function EncodeSpec(data: Matrix, cauchy: Matrix, numCode: nat): (code: Matrix)
    requires Rectangular(data) && numCode <= |cauchy|
    requires forall i :: 0 <= i < numCode ==> |cauchy[i]| >= |data|
    ensures IsMatrix(code, numCode, |data[0]|)
  {
    seq(numCode, i requires 0 <= i < numCode => CodeShred(data, cauchy[i]))
  }

  method Encode(data: Matrix, cauchy: Matrix, numCode: nat) returns (code: Matrix)
    requires Rectangular(data) && numCode <= |cauchy|
    requires forall i :: 0 <= i < numCode ==> |cauchy[i]| >= |data|
    ensures IsMatrix(code, numCode, |data[0]|)
    ensures forall i, col :: 0 <= i < numCode && 0 <= col < |data[0]| ==>
      code[i][col] == Dot(Column(data, col), cauchy[i], |data|)
    ensures code == EncodeSpec(data, cauchy, numCode)
  {
    hide GfMul, GfAdd;
    var size := |data[0]|;
    code := seq(numCode, _ => seq(size, _ => 0));
    for i := 0 to numCode
      invariant IsMatrix(code, numCode, size)
      invariant forall r :: 0 <= r < i ==> code[r] == CodeShred(data, cauchy[r])
    {
      for col := 0 to size
        invariant IsMatrix(code, numCode, size)
        invariant forall r :: 0 <= r < i ==> code[r] == CodeShred(data, cauchy[r])
        invariant forall c :: 0 <= c < col ==> code[i][c] == CodeShred(data, cauchy[i])[c]
      {
        var sum: byte := 0;
        for j := 0 to |data|
          invariant sum == Dot(Column(data, col), cauchy[i], j)
        {
          sum := GfAdd(sum, GfMul(data[j][col], cauchy[i][j]));
        }
        code := code[i := code[i][col := sum]];
      }
      assert code[i] == CodeShred(data, cauchy[i]);
    }
  }

  // ---- Decoder ----

  /** The row that index `idx` contributes to the system. */
  function SystemRow(idx: nat, cauchy: Matrix, numData: nat): Vec
    requires idx < numData + |cauchy|
  {
    if idx < numData then Unit(numData, idx) else cauchy[idx - numData]
  }

  ghost predicate ValidIndices(indices: seq<nat>, cauchy: Matrix, numData: nat) {
    && |indices| == numData
    && IsMatrix(cauchy, |cauchy|, numData)
    && forall r :: 0 <= r < numData ==> indices[r] < numData + |cauchy|
  }

  function System(indices: seq<nat>, cauchy: Matrix, numData: nat): (m: Matrix)
    requires ValidIndices(indices, cauchy, numData)
    ensures IsMatrix(m, numData, numData)
    ensures forall r :: 0 <= r < numData ==> m[r] == SystemRow(indices[r], cauchy, numData)
  {
    seq(numData, r requires 0 <= r < numData => SystemRow(indices[r], cauchy, numData))
  }

  /** `data` has the received shreds' length and explains every received byte. */
  ghost predicate Explains(data: Matrix, received: Matrix, system: Matrix)
    requires Rectangular(received) && IsMatrix(system, |received|, |received|)
  {
    && IsMatrix(data, |received|, |received[0]|)
    && forall col :: 0 <= col < |received[0]| ==> Apply(system, Column(data, col)) == Column(received, col)
  }

  /** Two data matrices that explain the same bytes are the same, unless the system is singular. */
  lemma ExplanationUnique(a: Matrix, b: Matrix, received: Matrix, system: Matrix)
    requires Rectangular(received) && IsMatrix(system, |received|, |received|) && !Singular(system)
    requires Explains(a, received, system) && Explains(b, received, system)
    ensures a == b
  {
    hide GfMul, Dot, Apply, Singular;
    var n, size := |received|, |received[0]|;
    forall i, c | 0 <= i < n && 0 <= c < size ensures a[i][c] == b[i][c] {
      SolutionUnique(system, Column(a, c), Column(b, c));
      assert Column(a, c)[i] == Column(b, c)[i];
    }
    EqualRows(a, b, n, size);
  }

  /** `decode` does not stop the program: it reads past a row shorter than the first one only once
      the system has been inverted. */
  ghost predicate CanDecode(received: Matrix, indices: seq<nat>, cauchy: Matrix, numData: nat) {
    && |received| == numData > 0
    && ValidIndices(indices, cauchy, numData)
    && (Singular(System(indices, cauchy, numData)) || Rectangular(received))
  }

  /** What `decode` returns: nothing when the system is singular, else the one explanation. */
  ghost function DecodeSpec(received: Matrix, indices: seq<nat>, cauchy: Matrix, numData: nat): (r: Option<Matrix>)
    requires CanDecode(received, indices, cauchy, numData)
  {
    var system := System(indices, cauchy, numData);
    if !Singular(system) && exists data :: Explains(data, received, system) then
      var data :| Explains(data, received, system);
      Some(data)
    else None
  }

  /** Builds the system of the received rows. */
  method BuildSystem(indices: seq<nat>, cauchy: Matrix, numData: nat) returns (matrix: Matrix)
    requires ValidIndices(indices, cauchy, numData)
    ensures IsMatrix(matrix, numData, numData)
    ensures forall r, c :: 0 <= r < numData && 0 <= c < numData ==>
      matrix[r][c] ==
        if indices[r] >= numData then cauchy[indices[r] - numData][c]
        else if c == indices[r] then 1 else 0
    ensures matrix == System(indices, cauchy, numData)
  {
    matrix := seq(numData, _ => seq(numData, _ => 0));
    for r := 0 to numData
      invariant IsMatrix(matrix, numData, numData)
      invariant forall k :: 0 <= k < r ==> matrix[k] == SystemRow(indices[k], cauchy, numData)
      invariant forall k :: r <= k < numData ==> matrix[k] == Zeros(numData)
    {
      var idx := indices[r];
      if idx < numData {
        matrix := matrix[r := matrix[r][idx := 1]];
      } else {
        matrix := matrix[r := cauchy[idx - numData]];
      }
    }
  }

  /** Multiplies the inverse with the received shreds, column by column. */
  method MultiplyOut(inv: Matrix, received: Matrix) returns (recovered: Matrix)
    requires Rectangular(received) && IsMatrix(inv, |received|, |received|)
    ensures IsMatrix(recovered, |received|, |received[0]|)
    ensures forall k, c :: 0 <= k < |received| && 0 <= c < |received[0]| ==>
      recovered[k][c] == Apply(inv, Column(received, c))[k]
  {
    hide GfMul, GfAdd;
    var n, size := |received|, |received[0]|;
    recovered := seq(n, _ => seq(size, _ => 0));
    for i := 0 to n
      invariant IsMatrix(recovered, n, size)
      invariant forall k, c :: 0 <= k < i && 0 <= c < size ==> recovered[k][c] == Apply(inv, Column(received, c))[k]
    {
      for col := 0 to size
        invariant IsMatrix(recovered, n, size)
        invariant forall k, c :: 0 <= k < i && 0 <= c < size ==> recovered[k][c] == Apply(inv, Column(received, c))[k]
        invariant forall c :: 0 <= c < col ==> recovered[i][c] == Apply(inv, Column(received, c))[i]
      {
        var sum: byte := 0;
        for k := 0 to n
          invariant sum == Dot(inv[i], Column(received, col), k)
        {
          sum := GfAdd(sum, GfMul(inv[i][k], received[k][col]));
        }
        recovered := recovered[i := recovered[i][col := sum]];
      }
    }
  }

  method Decode(received: Matrix, indices: seq<nat>, cauchy: Matrix, numData: nat) returns (r: Option<Matrix>)
    requires CanDecode(received, indices, cauchy, numData)
    ensures r == DecodeSpec(received, indices, cauchy, numData)
    ensures r.None? <==> Singular(System(indices, cauchy, numData))
    ensures r.Some? ==> Rectangular(received) && Explains(r.value, received, System(indices, cauchy, numData))
  {
    hide GfMul, Singular, Inverts, MatMul, Identity, Explains, System, Apply, Column;
    var matrix := BuildSystem(indices, cauchy, numData);
    var inverted := GfMatrixInvert(matrix);
    if inverted.None? {
      return None;
    }
    var recovered := MultiplyOut(inverted.value, received);
    RecoveredExplains(recovered, received, inverted.value, matrix);
    ghost var expected := DecodeSpec(received, indices, cauchy, numData);
    ExplanationUnique(recovered, expected.value, received, matrix);
    return Some(recovered);
  }

  lemma RecoveredExplains(recovered: Matrix, received: Matrix, inv: Matrix, system: Matrix)
    requires Rectangular(received) && IsMatrix(system, |received|, |received|)
    requires IsMatrix(inv, |received|, |received|) && Inverts(inv, system)
    requires IsMatrix(recovered, |received|, |received[0]|)
    requires forall k, c :: 0 <= k < |received| && 0 <= c < |received[0]| ==>
      recovered[k][c] == Apply(inv, Column(received, c))[k]
    ensures Explains(recovered, received, system)
  {
    hide Dot, Apply, Column, Inverts, Undoes;
    forall c | 0 <= c < |received[0]| ensures Apply(system, Column(recovered, c)) == Column(received, c) {
      RecoveredColumn(recovered, received, inv, c);
      InverseUndone(inv, system, Column(received, c));
    }
  }

  lemma RecoveredColumn(recovered: Matrix, received: Matrix, inv: Matrix, c: nat)
    requires Rectangular(received) && c < |received[0]| && IsMatrix(inv, |received|, |received|)
    requires IsMatrix(recovered, |received|, |received[0]|)
    requires forall k :: 0 <= k < |received| ==> recovered[k][c] == Apply(inv, Column(received, c))[k]
    ensures Column(recovered, c) == Apply(inv, Column(received, c))
  {
    hide Dot, Apply;
  }
}
