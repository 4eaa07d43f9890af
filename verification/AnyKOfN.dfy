/** The erasure-coding theorem: which code sizes let any `numData` of the `numData + numCode`
    shreds recover the data, and the round trip of `encode` and `decode`. */
module AnyKOfN {
  import opened Options
  import opened Gf256
  import opened LinearAlgebra
  import opened ReedSolomon

  // ---- Kernels of Cauchy systems ----

  ghost predicate Distinct<T>(s: seq<T>) {
    forall i, j :: 0 <= i < j < |s| ==> s[i] != s[j]
  }

  /** The positions where `c` is not zero. */
  ghost function Support(c: Vec): set<nat> {
    set j: nat | j < |c| && c[j] != 0
  }

  /** One elimination step: the coefficients left after combining the equations at two points so
      that the last column cancels. */
  ghost function Eliminated(c: Vec, ys: Vec, x0: byte): (r: Vec)
    requires 0 < |c| == |ys|
    ensures |r| == |c| - 1
    ensures forall j :: 0 <= j < |r| ==>
      r[j] == GfMul(c[j], GfMul(GfAdd(ys[j], ys[|ys| - 1]), GfInv(GfAdd(x0, ys[j]))))
  {
    var y := ys[|ys| - 1];
    seq(|c| - 1, j requires 0 <= j < |c| - 1 => GfMul(c[j], GfMul(GfAdd(ys[j], y), GfInv(GfAdd(x0, ys[j])))))
  }

  /** (x + yk) / (x + yj) is 1 + (yj + yk) / (x + yj). */
  lemma ShiftedQuotient(x: byte, yj: byte, yk: byte)
    requires x != yj
    ensures GfMul(GfAdd(x, yk), GfInv(GfAdd(x, yj))) == GfAdd(1, GfMul(GfAdd(yj, yk), GfInv(GfAdd(x, yj))))
  {
    hide GfMul, GfAdd, GfInv;
    var p := GfInv(GfAdd(x, yj));
    AddThrough(x, yj, yk);
    AddZeroIff(x, yj);
    MulInv(GfAdd(x, yj));
    MulDistrib(GfAdd(x, yj), GfAdd(yj, yk), p);
  }

  /** 1/a + 1/b is (a + b) / (a * b). */
  lemma SumOfInverses(a: byte, b: byte)
    requires a != 0 && b != 0
    ensures GfAdd(GfInv(a), GfInv(b)) == GfMul(GfAdd(a, b), GfMul(GfInv(a), GfInv(b)))
  {
    hide GfMul, GfAdd, GfInv;
    var p, q := GfInv(a), GfInv(b);
    MulInv(a);
    MulInv(b);
    MulDistrib(a, b, GfMul(p, q));
    MulAssoc(a, p, q);
    MulOne(q);
    MulComm(p, q);
    MulAssoc(b, q, p);
    MulOne(p);
    AddComm(p, q);
  }

  lemma AddThrough(x: byte, yj: byte, yk: byte)
    ensures GfAdd(x, yk) == GfAdd(GfAdd(x, yj), GfAdd(yj, yk))
  {}

  lemma AddCancelMiddle(x: byte, x0: byte, y: byte)
    ensures GfAdd(GfAdd(x, y), GfAdd(x0, y)) == GfAdd(x, x0)
  {}

  lemma AddCancelFront(a: byte, b: byte)
    ensures GfAdd(GfAdd(1, a), GfAdd(1, b)) == GfAdd(a, b)
  {}

  /** The identity behind one elimination step, for one column. */
  lemma EliminationTerm(x: byte, x0: byte, yj: byte, yk: byte, c: byte)
    requires x != yj && x0 != yj
    ensures GfMul(GfAdd(x, x0), GfMul(GfInv(GfAdd(x, yj)), GfMul(c, GfMul(GfAdd(yj, yk), GfInv(GfAdd(x0, yj))))))
      == GfAdd(GfMul(GfAdd(x, yk), GfMul(GfInv(GfAdd(x, yj)), c)), GfMul(GfAdd(x0, yk), GfMul(GfInv(GfAdd(x0, yj)), c)))
  {
    hide GfMul, GfAdd, GfInv;
    AddZeroIff(x, yj);
    AddZeroIff(x0, yj);
    ShiftedQuotient(x, yj, yk);
    ShiftedQuotient(x0, yj, yk);
    AddCancelMiddle(x, x0, yj);
    SumOfInverses(GfAdd(x, yj), GfAdd(x0, yj));
    var p, q, d := GfInv(GfAdd(x, yj)), GfInv(GfAdd(x0, yj)), GfAdd(yj, yk);
    var u := GfAdd(x, yk);
    var w := GfAdd(x0, yk);
    calc {
      GfAdd(GfMul(u, GfMul(p, c)), GfMul(w, GfMul(q, c)));
      { MulAssoc(u, p, c); MulAssoc(w, q, c); MulDistrib(GfMul(u, p), GfMul(w, q), c); }
      GfMul(GfAdd(GfMul(u, p), GfMul(w, q)), c);
      { AddCancelFront(GfMul(d, p), GfMul(d, q)); }
      GfMul(GfAdd(GfMul(d, p), GfMul(d, q)), c);
      { MulDistrib(p, q, d); }
      GfMul(GfMul(d, GfAdd(p, q)), c);
      GfMul(GfMul(d, GfMul(GfAdd(x, x0), GfMul(p, q))), c);
      { ReorderProduct(GfAdd(x, x0), p, q, c, d); }
      GfMul(GfAdd(x, x0), GfMul(p, GfMul(c, GfMul(d, q))));
    }
  }

  lemma ReorderProduct(e: byte, p: byte, q: byte, c: byte, d: byte)
    ensures GfMul(GfMul(d, GfMul(e, GfMul(p, q))), c) == GfMul(e, GfMul(p, GfMul(c, GfMul(d, q))))
  {
    hide GfMul;
    var pq := GfMul(p, q);
    MulAssoc(d, e, pq);
    MulComm(d, e);
    MulAssoc(e, d, pq);
    MulAssoc(e, GfMul(d, pq), c);
    MulAssoc(d, p, q);
    MulComm(d, p);
    MulAssoc(p, d, q);
    MulAssoc(p, GfMul(d, q), c);
    MulComm(GfMul(d, q), c);
  }

  /** The elimination identity, summed over the first `n` columns. */
  lemma {:induction false} EliminationSum(c: Vec, ys: Vec, x: byte, x0: byte, n: nat)
    requires 0 < |c| == |ys| && n < |c|
    requires x !in ys && x0 !in ys
    ensures var y := ys[|ys| - 1];
      GfMul(GfAdd(x, x0), Dot(CauchyRow(x, ys[..|c| - 1]), Eliminated(c, ys, x0), n))
      == GfAdd(GfMul(GfAdd(x, y), Dot(CauchyRow(x, ys), c, n)), GfMul(GfAdd(x0, y), Dot(CauchyRow(x0, ys), c, n)))
  {
    hide GfMul, GfAdd, GfInv, CauchyRow, Eliminated;
    var y, e := ys[|ys| - 1], GfAdd(x, x0);
    var short, c' := CauchyRow(x, ys[..|c| - 1]), Eliminated(c, ys, x0);
    var full, full0 := CauchyRow(x, ys), CauchyRow(x0, ys);
    if n == 0 {
      MulZero(e);
      MulZero(GfAdd(x, y));
      MulZero(GfAdd(x0, y));
      AddZero(0);
    } else {
      var k := n - 1;
      EliminationSum(c, ys, x, x0, k);
      EliminationTerm(x, x0, ys[k], y, c[k]);
      MulDistrib(Dot(short, c', k), GfMul(short[k], c'[k]), e);
      MulDistrib(Dot(full, c, k), GfMul(full[k], c[k]), GfAdd(x, y));
      MulDistrib(Dot(full0, c, k), GfMul(full0[k], c[k]), GfAdd(x0, y));
      AddInterchange(
        GfMul(GfAdd(x, y), Dot(full, c, k)), GfMul(GfAdd(x0, y), Dot(full0, c, k)),
        GfMul(GfAdd(x, y), GfMul(full[k], c[k])), GfMul(GfAdd(x0, y), GfMul(full0[k], c[k])));
    }
  }

  /** When the whole sum vanishes, (x + y) times all but its last term is the last coefficient. */
  lemma AllButLast(c: Vec, ys: Vec, x: byte)
    requires 0 < |c| == |ys| && x !in ys
    requires Dot(CauchyRow(x, ys), c, |c|) == 0
    ensures GfMul(GfAdd(x, ys[|ys| - 1]), Dot(CauchyRow(x, ys), c, |c| - 1)) == c[|c| - 1]
  {
    hide GfMul, GfInv, CauchyRow;
    var k := |c| - 1;
    var s, row := GfAdd(x, ys[k]), CauchyRow(x, ys);
    assert ys[k] in ys;
    AddZeroIff(x, ys[k]);
    AddZeroIff(Dot(row, c, k), GfMul(row[k], c[k]));
    MulInv(s);
    MulAssoc(s, GfInv(s), c[k]);
    MulOne(c[k]);
  }

  /** Points that satisfy the equations of `c` satisfy those of the eliminated coefficients. */
  lemma EliminationStep(c: Vec, ys: Vec, x: byte, x0: byte)
    requires 0 < |c| == |ys| && x != x0 && x !in ys && x0 !in ys
    requires Dot(CauchyRow(x, ys), c, |c|) == 0 && Dot(CauchyRow(x0, ys), c, |c|) == 0
    ensures Dot(CauchyRow(x, ys[..|c| - 1]), Eliminated(c, ys, x0), |c| - 1) == 0
  {
    hide GfMul, GfAdd, GfInv, Dot;
    AddZeroIff(x, x0);
    var k := |c| - 1;
    AllButLast(c, ys, x);
    AllButLast(c, ys, x0);
    EliminationSum(c, ys, x, x0, k);
    AddZeroIff(c[k], c[k]);
    MulNonZero(GfAdd(x, x0), Dot(CauchyRow(x, ys[..k]), Eliminated(c, ys, x0), k));
  }

  /** The combination sum_j c_j / (x + y_j) cannot vanish at as many points x as it has non-zero
      coefficients, unless all of them are zero. */
  lemma {:induction false} CauchyKernelTrivial(c: Vec, ys: Vec, xs: set<byte>)
    requires |c| == |ys| && Distinct(ys)
    requires forall x :: x in xs ==> x !in ys && Dot(CauchyRow(x, ys), c, |c|) == 0
    requires |Support(c)| <= |xs|
    ensures c == Zeros(|c|)
    decreases |c|
  {
    hide GfMul, GfAdd, GfInv, CauchyRow, Eliminated;
    if |c| > 0 {
      var k := |c| - 1;
      var ys' := ys[..k];
      if c[k] == 0 {
        forall x | x in xs ensures Dot(CauchyRow(x, ys'), c[..k], k) == 0 {
          DropZeroColumn(c, ys, x);
        }
        assert Support(c[..k]) == Support(c);
        CauchyKernelTrivial(c[..k], ys', xs);
        assert forall j :: 0 <= j < k ==> c[j] == c[..k][j];
      } else {
        assert k in Support(c) && |Support(c)| > 0;
        var x0 := Member(xs);
        var c' := Eliminated(c, ys, x0);
        forall x | x in xs - {x0} ensures Dot(CauchyRow(x, ys'), c', k) == 0 {
          EliminationStep(c, ys, x, x0);
        }
        forall j | 0 <= j < k ensures c'[j] == 0 <==> c[j] == 0 {
          EliminatedSupport(c, ys, x0, j);
        }
        assert Support(c') == Support(c) - {k};
        CauchyKernelTrivial(c', ys', xs - {x0});
        SingleTermVanishes(c, ys, x0);
      }
    }
  }

  lemma Member<T>(s: set<T>) returns (x: T)
    requires |s| > 0
    ensures x in s
  {
    assert s != {};
    x :| x in s;
  }

  lemma DropZeroColumn(c: Vec, ys: Vec, x: byte)
    requires 0 < |c| == |ys| && c[|c| - 1] == 0 && Dot(CauchyRow(x, ys), c, |c|) == 0
    ensures Dot(CauchyRow(x, ys[..|c| - 1]), c[..|c| - 1], |c| - 1) == 0
  {
    hide GfMul, GfInv, CauchyRow;
    var k := |c| - 1;
    DotOfEqual(CauchyRow(x, ys), CauchyRow(x, ys[..k]), c, c[..k], k);
    MulZero(CauchyRow(x, ys)[k]);
  }

  lemma EliminatedSupport(c: Vec, ys: Vec, x0: byte, j: nat)
    requires 0 < |c| == |ys| && Distinct(ys) && x0 !in ys && j < |c| - 1
    ensures Eliminated(c, ys, x0)[j] == 0 <==> c[j] == 0
  {
    hide GfMul, GfInv, Eliminated;
    var y := ys[|ys| - 1];
    AddZeroIff(ys[j], y);
    AddZeroIff(x0, ys[j]);
    MulInv(GfAdd(x0, ys[j]));
    MulNonZero(GfAdd(ys[j], y), GfInv(GfAdd(x0, ys[j])));
    MulNonZero(c[j], GfMul(GfAdd(ys[j], y), GfInv(GfAdd(x0, ys[j]))));
  }

  /** A vanishing sum whose terms but the last are all zero has a zero last term. */
  lemma SingleTermVanishes(c: Vec, ys: Vec, x: byte)
    requires 0 < |c| == |ys| && x !in ys
    requires forall j :: 0 <= j < |c| - 1 ==> c[j] == 0
    requires Dot(CauchyRow(x, ys), c, |c|) == 0
    ensures c[|c| - 1] == 0
  {
    hide GfMul, GfInv, CauchyRow, Dot;
    var k := |c| - 1;
    DotOfSingle(CauchyRow(x, ys), c, k, |c|);
    AddZeroIff(x, ys[k]);
    MulInv(GfAdd(x, ys[k]));
    MulNonZero(CauchyRow(x, ys)[k], c[k]);
  }

  // ---- Selections of rows ----

  /** `numData` distinct shred indices out of `numData + numCode`. */
  ghost predicate Selection(indices: seq<nat>, numData: nat, numCode: nat) {
    && |indices| == numData
    && Distinct(indices)
    && forall r :: 0 <= r < numData ==> indices[r] < numData + numCode
  }

  /** The code sizes at which the points x_i and y_j, cast to bytes, stay apart. */
  ghost predicate PointsApart(numData: nat, numCode: nat) {
    numCode == 0 || numCode <= numData <= 128
  }

  ghost function Below(n: nat): (r: set<nat>)
    ensures |r| == n && forall i: nat :: i in r <==> i < n
  {
    if n == 0 then {} else Below(n - 1) + {n - 1}
  }

  lemma {:induction false} DistinctSize<T>(s: seq<T>)
    requires Distinct(s)
    ensures |set i | 0 <= i < |s| :: s[i]| == |s|
    decreases |s|
  {
    if |s| > 0 {
      var t := s[..|s| - 1];
      DistinctSize(t);
      assert (set i | 0 <= i < |s| :: s[i]) == (set i | 0 <= i < |t| :: t[i]) + {s[|s| - 1]};
    }
  }

  /** The Cauchy point of the code shred at index `idx`. */
  function CodePoint(idx: nat, numData: nat): byte {
    if idx < numData then 0 else U8(idx - numData)
  }

  lemma {:induction false} ImageSize(codes: set<nat>, numData: nat)
    requires forall i, k :: i in codes && k in codes && i != k ==> CodePoint(i, numData) != CodePoint(k, numData)
    ensures |set i | i in codes :: CodePoint(i, numData)| == |codes|
    decreases |codes|
  {
    hide CodePoint;
    if codes != {} {
      var i :| i in codes;
      ImageSize(codes - {i}, numData);
      assert (set k | k in codes :: CodePoint(k, numData))
        == (set k | k in codes - {i} :: CodePoint(k, numData)) + {CodePoint(i, numData)};
    }
  }

  lemma SmallDistinct(a: nat, b: nat)
    requires a < 256 && b < 256 && a != b
    ensures U8(a) != U8(b)
  {
    hide U8, AsNat;
    assert AsNat(U8(a)) == a && AsNat(U8(b)) == b;
  }

  /** Any `numData` of the rows of [I; Cauchy] are linearly independent. */
  lemma SelectionNonSingular(indices: seq<nat>, numData: nat, numCode: nat)
    requires numData > 0 && PointsApart(numData, numCode) && Selection(indices, numData, numCode)
    ensures !Singular(System(indices, Cauchy(numData, numCode), numData))
  {
    hide GfMul, GfInv, Dot, U8, CauchyRow;
    var cauchy := Cauchy(numData, numCode);
    var system := System(indices, cauchy, numData);
    forall v: Vec | |v| == numData && InKernel(system, v) ensures v == Zeros(numData) {
      SelectedKernelTrivial(indices, numData, numCode, v);
    }
  }

  ghost function IndexSet(indices: seq<nat>): set<nat> {
    set r | 0 <= r < |indices| :: indices[r]
  }

  ghost function CodeIndices(indices: seq<nat>, numData: nat): set<nat> {
    set i | i in IndexSet(indices) && numData <= i
  }

  lemma SelectedKernelTrivial(indices: seq<nat>, numData: nat, numCode: nat, v: Vec)
    requires numData > 0 && PointsApart(numData, numCode) && Selection(indices, numData, numCode)
    requires |v| == numData && InKernel(System(indices, Cauchy(numData, numCode), numData), v)
    ensures v == Zeros(numData)
  {
    hide GfMul, GfInv, Dot, U8, CauchyRow, InKernel, CodePoint, Points, Cauchy, System;
    var codes := CodeIndices(indices, numData);
    SupportFitsCodes(indices, numData, numCode, v);
    if codes == {} {
      assert Support(v) == {};
      forall j | 0 <= j < numData ensures v[j] == 0 { assert j !in Support(v); }
    } else {
      var xs := set i | i in codes :: CodePoint(i, numData);
      forall i, k | i in codes && k in codes && i != k ensures CodePoint(i, numData) != CodePoint(k, numData) {
        CodePointInjective(i, k, numData);
      }
      ImageSize(codes, numData);
      forall x | x in xs ensures x !in Points(numData) && Dot(CauchyRow(x, Points(numData)), v, |v|) == 0 {
        var i :| i in codes && x == CodePoint(i, numData);
        CodeRowKernel(indices, numData, numCode, v, i);
        PointsAvoid(i, numData);
      }
      PointsDistinct(numData);
      CauchyKernelTrivial(v, Points(numData), xs);
    }
  }

  /** A kernel vector is zero at the received data shreds, so it has at most as many non-zero
      entries as there are received code shreds. */
  lemma SupportFitsCodes(indices: seq<nat>, numData: nat, numCode: nat, v: Vec)
    requires Selection(indices, numData, numCode)
    requires |v| == numData && InKernel(System(indices, Cauchy(numData, numCode), numData), v)
    ensures |Support(v)| <= |CodeIndices(indices, numData)|
  {
    hide GfMul, GfInv, Dot, U8, CauchyRow, InKernel, Points, Cauchy, System;
    var all, codes := IndexSet(indices), CodeIndices(indices, numData);
    var datas := set i | i in all && i < numData;
    DistinctSize(indices);
    assert all == datas + codes && datas !! codes;
    forall i | i in datas ensures v[i] == 0 {
      DataRowKernel(indices, numData, numCode, v, i);
    }
    SupportBound(v, datas);
  }

  lemma DataRowKernel(indices: seq<nat>, numData: nat, numCode: nat, v: Vec, i: nat)
    requires Selection(indices, numData, numCode) && i in indices && i < numData
    requires |v| == numData && InKernel(System(indices, Cauchy(numData, numCode), numData), v)
    ensures v[i] == 0
  {
    hide GfMul, GfInv, Dot, U8, CauchyRow;
    var r :| 0 <= r < |indices| && indices[r] == i;
    assert Dot(System(indices, Cauchy(numData, numCode), numData)[r], v, |v|) == 0;
    DotUnit(v, i, numData);
  }

  lemma CodeRowKernel(indices: seq<nat>, numData: nat, numCode: nat, v: Vec, i: nat)
    requires Selection(indices, numData, numCode)
    requires i in indices && numData <= i
    requires |v| == numData && InKernel(System(indices, Cauchy(numData, numCode), numData), v)
    ensures Dot(CauchyRow(CodePoint(i, numData), Points(numData)), v, |v|) == 0
  {
    hide GfMul, GfInv, Dot, U8, CauchyRow, Points;
    var r :| 0 <= r < |indices| && indices[r] == i;
    assert Dot(System(indices, Cauchy(numData, numCode), numData)[r], v, |v|) == 0;
  }

  lemma PointsAvoid(idx: nat, numData: nat)
    requires numData <= idx < 2 * numData <= 256
    ensures CodePoint(idx, numData) !in Points(numData)
  {
    hide U8, Points;
    forall j | 0 <= j < numData ensures CodePoint(idx, numData) != Points(numData)[j] {
      SmallDistinct(idx - numData, numData + j);
    }
  }

  lemma CodePointInjective(i: nat, k: nat, numData: nat)
    requires numData <= i < 2 * numData <= 256 && numData <= k < 2 * numData && i != k
    ensures CodePoint(i, numData) != CodePoint(k, numData)
  {
    hide U8;
    SmallDistinct(i - numData, k - numData);
  }

  lemma PointsDistinct(numData: nat)
    requires numData <= 128
    ensures Distinct(Points(numData))
  {
    hide U8, Points;
    forall i, j | 0 <= i < j < numData ensures Points(numData)[i] != Points(numData)[j] {
      SmallDistinct(numData + i, numData + j);
    }
  }

  lemma SupportBound(v: Vec, zeros: set<nat>)
    requires forall i :: i in zeros ==> i < |v| && v[i] == 0
    ensures |Support(v)| + |zeros| <= |v|
  {
    assert Support(v) + zeros <= Below(|v|) && Support(v) !! zeros;
    SubsetSize(Support(v) + zeros, Below(|v|));
  }

  lemma {:induction false} SubsetSize<T>(a: set<T>, b: set<T>)
    requires a <= b
    ensures |a| <= |b|
    decreases |a|
  {
    if a != {} {
      var x :| x in a;
      SubsetSize(a - {x}, b - {x});
    }
  }

  // ---- The round trip ----

  /** The sender's whole set: the data shreds, then the code shreds. */
  ghost function Codeword(data: Matrix, numCode: nat): (w: Matrix)
    requires Rectangular(data)
    ensures |w| == |data| + numCode
    ensures EqualLengths(data) ==> forall r :: 0 <= r < |w| ==> |w[r]| == |data[0]|
    ensures forall r :: 0 <= r < |data| ==> w[r] == data[r]
    ensures forall r :: |data| <= r < |w| ==> w[r] == CodeShred(data, Cauchy(|data|, numCode)[r - |data|])
  {
    data + EncodeSpec(data, Cauchy(|data|, numCode), numCode)
  }

  /** The first code shreds do not depend on how many there are. */
  lemma SameCodeShreds(data: Matrix, k: nat, m: nat, i: nat)
    requires Rectangular(data) && i < |data| + k && i < |data| + m
    ensures Codeword(data, k)[i] == Codeword(data, m)[i]
  {
    hide GfInv, U8, CauchyRow, CodeShred, Points;
  }

  ghost predicate EqualLengths(shreds: Matrix) {
    |shreds| > 0 && forall i :: 0 <= i < |shreds| ==> |shreds[i]| == |shreds[0]|
  }

  /** The data shreds, cut to the length of the first one: the bytes that `encode` reads. */
  ghost function Truncated(data: Matrix): (r: Matrix)
    requires Rectangular(data)
    ensures IsMatrix(r, |data|, |data[0]|)
    ensures forall i, c :: 0 <= i < |data| && 0 <= c < |data[0]| ==> r[i][c] == data[i][c]
    ensures r == data <==> EqualLengths(data)
  {
    var r := seq(|data|, i requires 0 <= i < |data| => data[i][..|data[0]|]);
    assert EqualLengths(data) ==> forall i :: 0 <= i < |data| ==> r[i] == data[i];
    assert r == data ==> forall i :: 0 <= i < |data| ==> |r[i]| == |data[i]|;
    r
  }

  /** The rows of the codeword at the given indices. */
  ghost function Received(data: Matrix, numCode: nat, indices: seq<nat>): (w: Matrix)
    requires Rectangular(data) && Selection(indices, |data|, numCode)
    ensures |w| == |data|
    ensures forall r :: 0 <= r < |w| ==> w[r] == Codeword(data, numCode)[indices[r]] && |w[r]| >= |data[0]|
    ensures EqualLengths(data) ==> forall r :: 0 <= r < |w| ==> |w[r]| == |data[0]|
  {
    seq(|indices|, r requires 0 <= r < |indices| => Codeword(data, numCode)[indices[r]])
  }

  /** Some selected row is as short as the first data shred: a code shred, or that shred itself. */
  lemma ShortestSelected(data: Matrix, numCode: nat, indices: seq<nat>) returns (r: nat)
    requires Rectangular(data) && Selection(indices, |data|, numCode)
    ensures r < |data| && |Received(data, numCode, indices)[r]| == |data[0]|
  {
    hide Cauchy, Received, CodeShred;
    if i :| 0 <= i < |indices| && (indices[i] == 0 || indices[i] >= |data|) {
      r := i;
    } else {
      DistinctSize(indices);
      SubsetSize(IndexSet(indices), Below(|data|) - {0});
      assert false;
    }
  }

  lemma ReceivedRectangular(data: Matrix, numCode: nat, indices: seq<nat>)
    requires Rectangular(data) && Selection(indices, |data|, numCode)
    ensures Rectangular(Received(data, numCode, indices)) <==> |Received(data, numCode, indices)[0]| == |data[0]|
  {
    hide Received;
    var r := ShortestSelected(data, numCode, indices);
  }

  lemma DataExplainsReceived(data: Matrix, numCode: nat, indices: seq<nat>)
    requires Rectangular(data) && Selection(indices, |data|, numCode)
    requires |Received(data, numCode, indices)[0]| == |data[0]|
    ensures Rectangular(Received(data, numCode, indices))
    ensures var system := System(indices, Cauchy(|data|, numCode), |data|);
      Explains(Truncated(data), Received(data, numCode, indices), system)
  {
    hide Dot, Apply, Column, System, Received, Cauchy, Truncated;
    var m := |data|;
    var system, received := System(indices, Cauchy(m, numCode), m), Received(data, numCode, indices);
    var cut := Truncated(data);
    ReceivedRectangular(data, numCode, indices);
    forall col | 0 <= col < |data[0]| ensures Apply(system, Column(cut, col)) == Column(received, col) {
      TruncatedColumn(data, col);
      forall r | 0 <= r < m ensures Apply(system, Column(cut, col))[r] == Column(received, col)[r] {
        ReceivedEntry(data, numCode, indices, r, col);
      }
    }
  }

  lemma TruncatedColumn(data: Matrix, col: nat)
    requires Rectangular(data) && col < |data[0]|
    ensures Column(Truncated(data), col) == Column(data, col)
  {
    hide Truncated;
  }

  lemma ReceivedEntry(data: Matrix, numCode: nat, indices: seq<nat>, r: nat, col: nat)
    requires Rectangular(data) && Selection(indices, |data|, numCode)
    requires r < |data| && col < |data[0]|
    ensures Dot(System(indices, Cauchy(|data|, numCode), |data|)[r], Column(data, col), |data|)
      == Received(data, numCode, indices)[r][col]
  {
    hide Dot, Cauchy, Codeword, Received, System, Column, CodeShred, Unit;
    if indices[r] < |data| {
      DotUnit(Column(data, col), indices[r], |data|);
    } else {
      CodeEntry(data, Cauchy(|data|, numCode)[indices[r] - |data|], col);
    }
  }

  lemma CodeEntry(data: Matrix, weights: Vec, col: nat)
    requires Rectangular(data) && |weights| == |data| && col < |data[0]|
    ensures Dot(weights, Column(data, col), |data|) == CodeShred(data, weights)[col]
  {
    hide Dot, Column, CodeShred;
    DotComm(Column(data, col), weights, |data|);
  }

  /** What decoding any selection of a codeword's rows does, for all data that can be encoded. It
      stops the program exactly when the selection is non-singular and starts with a row longer than the
      first data shred. Else it fails, because the selection is singular, or returns the sender's
      data, as far as they were encoded. */
  lemma DecodeIsDataOrNone(data: Matrix, numCode: nat, indices: seq<nat>)
    requires Rectangular(data) && Selection(indices, |data|, numCode)
    ensures var cauchy, received := Cauchy(|data|, numCode), Received(data, numCode, indices);
      var singular := Singular(System(indices, cauchy, |data|));
      && (CanDecode(received, indices, cauchy, |data|) <==> singular || |received[0]| == |data[0]|)
      && (CanDecode(received, indices, cauchy, |data|) ==>
        DecodeSpec(received, indices, cauchy, |data|) == if singular then None else Some(Truncated(data)))
  {
    hide GfMul, GfInv, Dot, U8, CauchyRow, Singular, Explains, Cauchy, Truncated, Received;
    var cauchy := Cauchy(|data|, numCode);
    var system, received := System(indices, cauchy, |data|), Received(data, numCode, indices);
    ReceivedRectangular(data, numCode, indices);
    if !Singular(system) && |received[0]| == |data[0]| {
      DataExplainsReceived(data, numCode, indices);
      var r := DecodeSpec(received, indices, cauchy, |data|);
      ExplanationUnique(r.value, Truncated(data), received, system);
    }
  }

  /** Decode inverts encode, from any `numData` shreds of the set in any order. */
  lemma DecodeInvertsEncode(data: Matrix, numCode: nat, indices: seq<nat>)
    requires Rectangular(data) && PointsApart(|data|, numCode) && Selection(indices, |data|, numCode)
    ensures var cauchy, received := Cauchy(|data|, numCode), Received(data, numCode, indices);
      && (CanDecode(received, indices, cauchy, |data|) <==> |received[0]| == |data[0]|)
      && (CanDecode(received, indices, cauchy, |data|) ==>
        DecodeSpec(received, indices, cauchy, |data|) == Some(Truncated(data)))
      && (EqualLengths(data) ==> CanDecode(received, indices, cauchy, |data|) && Truncated(data) == data)
  {
    hide Singular, Cauchy, DecodeSpec, CanDecode, Truncated;
    SelectionNonSingular(indices, |data|, numCode);
    DecodeIsDataOrNone(data, numCode, indices);
  }

  /** Outside the bound, a code point x_i collides with a data point y_j, `gf_inv(0)` puts a zero
      into the Cauchy matrix, and replacing data shred j by code shred i loses column j. */
  lemma CollidingPoints(numData: nat, numCode: nat) returns (i: nat, j: nat)
    requires numData > 0 && !PointsApart(numData, numCode)
    ensures i < numCode && j < numData
    ensures Cauchy(numData, numCode)[i][j] == 0
  {
    hide GfInv, GfAdd, U8;
    if numCode > numData {
      i, j := numData, 0;
    } else {
      i, j := 0, (256 - numData % 256) % 256;
      WrapsToZero(numData);
    }
    U8Same(i, numData + j);
    AddZeroIff(U8(i), U8(numData + j));
    InvOfZero();
  }

  lemma WrapsToZero(n: nat)
    ensures (n + (256 - n % 256) % 256) % 256 == 0
    ensures n > 128 ==> (256 - n % 256) % 256 < n
  {}

  lemma InvOfZero()
    ensures GfInv(0) == 0
  {}

  lemma U8Same(a: nat, b: nat)
    requires a % 256 == b % 256
    ensures U8(a) == U8(b)
  {
    hide ToByte;
  }

  /** All data shreds but the one at `j`, in whose place stands code shred `i`. */
  ghost function Replaced(numData: nat, j: nat, i: nat): (r: seq<nat>)
    ensures |r| == numData && forall k :: 0 <= k < numData ==> r[k] == if k == j then numData + i else k
  {
    seq(numData, k => if k == j then numData + i else k)
  }

  lemma ReplacedIsSelection(numData: nat, numCode: nat, j: nat, i: nat)
    requires j < numData && i < numCode
    ensures Selection(Replaced(numData, j, i), numData, numCode)
    ensures ValidIndices(Replaced(numData, j, i), Cauchy(numData, numCode), numData)
  {
    hide Cauchy, Replaced;
  }

  lemma SomeSelectionSingular(numData: nat, numCode: nat) returns (indices: seq<nat>)
    requires numData > 0 && !PointsApart(numData, numCode)
    ensures Selection(indices, numData, numCode)
    ensures Singular(System(indices, Cauchy(numData, numCode), numData))
  {
    hide Cauchy, System, Singular, PointsApart, Selection, ValidIndices, Replaced, GfInv, U8, CauchyRow;
    var i, j := CollidingPoints(numData, numCode);
    indices := Replaced(numData, j, i);
    ReplacedIsSelection(numData, numCode, j, i);
    forall r | 0 <= r < numData ensures Omits(indices[r], Cauchy(numData, numCode), numData, j) {
      if r == j { assert indices[r] == numData + i; } else { assert indices[r] == r; }
    }
    hide Omits;
    ColumnLost(indices, Cauchy(numData, numCode), numData, j);
  }

  /** The row of the shred at `idx` has a zero in column j. */
  ghost predicate Omits(idx: nat, cauchy: Matrix, numData: nat, j: nat)
    requires IsMatrix(cauchy, |cauchy|, numData) && j < numData
  {
    idx != j && (numData <= idx < numData + |cauchy| ==> cauchy[idx - numData][j] == 0)
  }

  /** A selection none of whose rows involves data shred j is singular. */
  lemma ColumnLost(indices: seq<nat>, cauchy: Matrix, numData: nat, j: nat)
    requires ValidIndices(indices, cauchy, numData) && j < numData
    requires forall r :: 0 <= r < numData ==> Omits(indices[r], cauchy, numData, j)
    ensures Singular(System(indices, cauchy, numData))
  {
    hide Dot, System, InKernel, Singular;
    var system, v := System(indices, cauchy, numData), Unit(numData, j);
    forall r | 0 <= r < numData ensures Dot(system[r], v, numData) == 0 {
      DotUnit(system[r], j, numData);
    }
    KernelFromDots(system, v);
    assert v[j] != Zeros(numData)[j];
    SingularFrom(system, v);
  }

  lemma SingularFrom(m: Matrix, v: Vec)
    requires IsMatrix(m, |m|, |m|) && |v| == |m| && v != Zeros(|m|) && InKernel(m, v)
    ensures Singular(m)
  {}

  /** Every selection of the set's shreds that the decoder can read decodes. */
  ghost predicate AnySelectionDecodes(data: Matrix, numCode: nat)
    requires Rectangular(data)
  {
    forall indices: seq<nat> {:trigger Received(data, numCode, indices)}
      | Selection(indices, |data|, numCode)
        && CanDecode(Received(data, numCode, indices), indices, Cauchy(|data|, numCode), |data|) ::
      DecodeSpec(Received(data, numCode, indices), indices, Cauchy(|data|, numCode), |data|) == Some(Truncated(data))
  }

  /** For all data, the any-k-of-n property holds for exactly the code sizes whose points stay apart. */
  lemma AnyKOfNExactly(data: Matrix, numCode: nat)
    requires Rectangular(data)
    ensures AnySelectionDecodes(data, numCode) <==> PointsApart(|data|, numCode)
  {
    hide Singular, Cauchy, DecodeSpec, CanDecode, Truncated;
    if PointsApart(|data|, numCode) {
      forall indices: seq<nat>
        | Selection(indices, |data|, numCode)
          && CanDecode(Received(data, numCode, indices), indices, Cauchy(|data|, numCode), |data|)
        ensures DecodeSpec(Received(data, numCode, indices), indices, Cauchy(|data|, numCode), |data|)
          == Some(Truncated(data))
      {
        DecodeInvertsEncode(data, numCode, indices);
      }
    } else {
      var indices := SomeSelectionSingular(|data|, numCode);
      DecodeIsDataOrNone(data, numCode, indices);
      var received := Received(data, numCode, indices);
    }
  }
}
