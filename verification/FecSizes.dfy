/** Sets and batches of different sizes. A data shred does not say how large its set is, so a batch
    that starts with one has the default size, whatever the sender's is. */
module FecSizes {
  import opened Options
  import opened Arithmetic
  import opened Gf256
  import opened LinearAlgebra
  import opened ReedSolomon
  import opened AnyKOfN
  import opened FecBatches
  import opened Deshredder

  /** A shred of a sender with `numCode` code shreds. */
  ghost predicate Sent(a: Arrival, data: Matrix, numCode: nat)
    requires EqualLengths(data)
  {
    match a
    case DataArrival(index, bytes) => index < |data| && bytes == data[index]
    case CodeArrival(position, bytes) => position < numCode && bytes == Codeword(data, numCode)[|data| + position]
  }

  ghost predicate AllSent(arrivals: seq<Arrival>, data: Matrix, numCode: nat)
    requires EqualLengths(data)
  {
    forall k :: 0 <= k < |arrivals| ==> Sent(arrivals[k], data, numCode)
  }

  /** Recovery gives nothing but the sender's data. */
  ghost predicate NothingElse(b: BatchState, data: Matrix)
    requires b.Valid()
  {
    CanRecover(b) && (TryRecoverSpec(b).Some? ==> TryRecoverSpec(b).value == data)
  }

  /** Recovery gives no bytes but the sender's; the receive path looks at nothing else. */
  ghost predicate NoOtherBytes(b: BatchState, data: Matrix)
    requires b.Valid()
  {
    CanRecover(b) && (TryRecoverSpec(b).Some? ==> Concat(TryRecoverSpec(b).value) == Concat(data))
  }

  ghost predicate Faithful(data: Matrix, batchData: nat, batchCode: nat, arrivals: seq<Arrival>) {
    NoOtherBytes(Run(NewBatch(0, 0, batchData, batchCode), arrivals), data)
  }

  ghost predicate IsSet(data: Matrix, numData: nat, len: nat) {
    EqualLengths(data) && |data| == numData && |data[0]| == len
  }

  /** No run of a sender's `numData` data and `numCode` code shreds of length `len` into a batch of the
      given size recovers any bytes but the sender's. */
  ghost predicate AlwaysFaithful(numData: nat, numCode: nat, len: nat, batchData: nat, batchCode: nat) {
    forall data: Matrix, arrivals: seq<Arrival> | IsSet(data, numData, len) && AllSent(arrivals, data, numCode) ::
      Faithful(data, batchData, batchCode, arrivals)
  }

  lemma HoldsNothingElse(b: BatchState, data: Matrix)
    requires Holds(b, data)
    ensures NothingElse(b, data)
  {
    hide Cauchy, CodeShred, CauchyRow, GfInv, GfAdd, U8, AsNat, DecodeSpec, Singular, Truncated, CanDecode;
    HoldsCanRecover(b, data);
    CountAtMost(b.dataShreds);
    if Count(b.dataShreds) == b.numData {
      forall i | 0 <= i < b.numData ensures b.dataShreds[i] == Some(data[i]) {
        assert ShredAt(b, i) == b.dataShreds[i];
        assert Codeword(data, b.numCode)[i] == data[i];
      }
      assert Unwrapped(b.dataShreds) == data;
    } else if NeedsDecoding(b) {
      DecodeIsDataOrNone(data, b.numCode, ChosenIndices(b));
    }
  }

  /** The sender's shreds are honest for any batch that agrees on the number of data shreds. */
  lemma SentIsHonest(a: Arrival, data: Matrix, numCode: nat, batchCode: nat)
    requires EqualLengths(data) && Sent(a, data, numCode)
    ensures Honest(a, data, batchCode)
  {
    hide Codeword, Cauchy, CodeShred, CauchyRow, GfInv, GfAdd, U8, AsNat;
    var target := Target(a, |data|, batchCode);
    if target.Some? {
      SameCodeShreds(data, numCode, batchCode, target.value);
      assert a.DataArrival? ==> Codeword(data, batchCode)[target.value] == data[target.value];
    }
  }

  lemma RunFaithful(data: Matrix, numCode: nat, batchCode: nat, arrivals: seq<Arrival>)
    requires EqualLengths(data) && AllSent(arrivals, data, numCode)
    ensures NothingElse(Run(NewBatch(0, 0, |data|, batchCode), arrivals), data)
    ensures Faithful(data, |data|, batchCode, arrivals)
  {
    hide Codeword, Cauchy, CodeShred, CauchyRow, GfInv, GfAdd, U8, AsNat, Holds, TryRecoverSpec, CanRecover,
      Concat, Run, NewBatch, Sent, Honest;
    forall k | 0 <= k < |arrivals| ensures Honest(arrivals[k], data, batchCode) {
      SentIsHonest(arrivals[k], data, numCode, batchCode);
    }
    RunHolds(0, 0, data, batchCode, arrivals);
    HoldsNothingElse(Run(NewBatch(0, 0, |data|, batchCode), arrivals), data);
  }

  /** After any run, of honest shreds or not, exactly the delivered indices are filled. */
  lemma {:induction false} RunFills(b: BatchState, arrivals: seq<Arrival>)
    requires b.Valid() && forall i: nat :: i < b.numData + b.numCode ==> ShredAt(b, i).None?
    ensures var after := Run(b, arrivals);
      && after.numData == b.numData && after.numCode == b.numCode
      && forall i: nat :: i in Delivered(arrivals, b.numData, b.numCode) <==>
        i < b.numData + b.numCode && ShredAt(after, i).Some?
    decreases |arrivals|
  {
    hide Deliver, ShredAt;
    if |arrivals| > 0 {
      var before, last := arrivals[..|arrivals| - 1], arrivals[|arrivals| - 1];
      RunFills(b, before);
      var after := Run(b, before);
      forall i: nat | i < b.numData + b.numCode ensures
        ShredAt(Deliver(after, last), i).Some? <==>
          ShredAt(after, i).Some? || Target(last, b.numData, b.numCode) == Some(i)
      {
        DeliverFills(after, last, i);
      }
    }
  }

  /** A smaller sender's shreds have few targets in a batch of a larger size. */
  ghost function FewTargets(numData: nat, batchData: nat, top: nat): set<nat> {
    Below(top) - (Below(batchData) - Below(numData))
  }

  lemma SentTarget(a: Arrival, data: Matrix, numCode: nat, batchData: nat, batchCode: nat)
    requires EqualLengths(data) && Sent(a, data, numCode) && |data| <= batchData
    requires Target(a, batchData, batchCode).Some?
    ensures Target(a, batchData, batchCode).value in FewTargets(|data|, batchData, batchData + Min(numCode, batchCode))
  {
    hide Codeword, Cauchy, CodeShred, CauchyRow, GfInv, GfAdd, U8, AsNat, Below;
  }

  lemma {:induction false} FewDelivered(
    data: Matrix, numCode: nat, batchData: nat, batchCode: nat, arrivals: seq<Arrival>)
    requires EqualLengths(data) && AllSent(arrivals, data, numCode) && |data| <= batchData
    ensures Delivered(arrivals, batchData, batchCode)
      <= FewTargets(|data|, batchData, batchData + Min(numCode, batchCode))
    decreases |arrivals|
  {
    hide Sent, Target, FewTargets, Min, EqualLengths;
    if |arrivals| > 0 {
      var before, last := arrivals[..|arrivals| - 1], arrivals[|arrivals| - 1];
      FewDelivered(data, numCode, batchData, batchCode, before);
      if Target(last, batchData, batchCode).Some? {
        SentTarget(last, data, numCode, batchData, batchCode);
      }
    }
  }

  function Min(a: nat, b: nat): nat {
    if a < b then a else b
  }

  lemma FewIndices(numData: nat, batchData: nat, top: nat)
    requires numData <= batchData <= top
    ensures |FewTargets(numData, batchData, top)| == top - (batchData - numData)
  {
    hide Below;
    SizeWithout(Below(numData), Below(batchData), Below(top));
  }

  lemma SizeWithout<T>(a: set<T>, b: set<T>, c: set<T>)
    requires a <= b <= c
    ensures |c - (b - a)| == |c| - (|b| - |a|)
  {
    assert b == a + (b - a);
    assert c == (b - a) + (c - (b - a));
  }

  lemma TooFewToRecover(data: Matrix, numCode: nat, batchData: nat, batchCode: nat, arrivals: seq<Arrival>)
    requires EqualLengths(data) && AllSent(arrivals, data, numCode)
    requires |data| + Min(numCode, batchCode) < batchData
    ensures Faithful(data, batchData, batchCode, arrivals)
  {
    hide Codeword, Cauchy, CodeShred, CauchyRow, GfInv, GfAdd, U8, AsNat, Run, NewBatch, Delivered, FewTargets,
      CanDecode, DecodeSpec, AllSent, Concat, Gather;
    var b := NewBatch(0, 0, batchData, batchCode);
    assert b.numData == batchData && b.numCode == batchCode
      && forall i: nat :: i < b.numData + b.numCode ==> ShredAt(b, i).None? by { EmptySlots(batchData, batchCode); }
    RunFills(b, arrivals);
    var delivered, top := Delivered(arrivals, batchData, batchCode), batchData + Min(numCode, batchCode);
    FewDelivered(data, numCode, batchData, batchCode, arrivals);
    SubsetSize(delivered, FewTargets(|data|, batchData, top));
    FewIndices(|data|, batchData, top);
    DeliveredCount(Run(b, arrivals), delivered);
  }

  lemma EmptySlots(numData: nat, numCode: nat)
    ensures var b := NewBatch(0, 0, numData, numCode);
      && b.numData == numData && b.numCode == numCode
      && forall i: nat :: i < b.numData + b.numCode ==> ShredAt(b, i).None?
  {}

  // ---- A run that recovers other bytes ----

  /** Data shreds of nothing but zeros. */
  function ZeroRows(count: nat, len: nat): (rows: Matrix)
    ensures |rows| == count && forall i :: 0 <= i < count ==> rows[i] == Zeros(len)
  {
    seq(count, _ => Zeros(len))
  }

  /** Their code shreds are zero as well. */
  lemma ZeroCodeword(count: nat, len: nat, numCode: nat, i: nat)
    requires count > 0 && i < count + numCode
    ensures Codeword(ZeroRows(count, len), numCode)[i] == Zeros(len)
  {
    hide GfInv, GfAdd, U8, AsNat, CauchyRow, Cauchy, CodeShred, Codeword, Points, ZeroRows;
    if i >= count {
      ZeroCode(count, len, Cauchy(count, numCode)[i - count]);
    }
  }

  lemma ZeroCode(count: nat, len: nat, weights: Vec)
    requires count > 0 && |weights| == count
    ensures CodeShred(ZeroRows(count, len), weights) == Zeros(len)
  {
    hide GfMul, Column, Dot, CodeShred, ZeroRows;
    forall col | 0 <= col < len ensures CodeShred(ZeroRows(count, len), weights)[col] == 0 {
      ZeroColumn(count, len, col);
      DotComm(Column(ZeroRows(count, len), col), weights, count);
      DotZeros(weights, count);
    }
  }

  lemma ZeroColumn(count: nat, len: nat, col: nat)
    requires count > 0 && col < len
    ensures Column(ZeroRows(count, len), col) == Zeros(count)
  {}

  lemma {:induction false} ZeroBytes(count: nat, len: nat)
    ensures |Concat(ZeroRows(count, len))| == count * len
  {
    if count > 0 {
      ZeroBytes(count - 1, len);
      assert ZeroRows(count, len)[1..] == ZeroRows(count - 1, len);
      MulStep(count - 1, len);
    }
  }

  /** The first shreds of a sender with `numData` such data shreds: the data shreds, then code shreds. */
  ghost function ZeroArrivals(numData: nat, len: nat, count: nat): (r: seq<Arrival>)
    ensures |r| == count
    ensures forall k :: 0 <= k < count ==>
      r[k] == if k < numData then DataArrival(k, Zeros(len)) else CodeArrival(k - numData, Zeros(len))
  {
    seq(count, k requires 0 <= k < count =>
      if k < numData then DataArrival(k, Zeros(len)) else CodeArrival(k - numData, Zeros(len)))
  }

  /** The indices that they fill in a batch of another size. */
  ghost predicate ZeroTargets(targets: set<nat>, numData: nat, batchData: nat, count: nat) {
    && |targets| == count
    && forall i: nat :: i in targets <==> i < Min(count, numData) || batchData <= i < batchData + count - numData
  }

  lemma {:induction false} ZeroDelivered(numData: nat, len: nat, batchData: nat, batchCode: nat, count: nat)
    requires count <= batchData && (numData < count ==> count <= numData + batchCode)
    ensures ZeroTargets(Delivered(ZeroArrivals(numData, len, count), batchData, batchCode), numData, batchData, count)
    decreases count
  {
    if count > 0 {
      hide ZeroTargets;
      var arrivals, last := ZeroArrivals(numData, len, count), count - 1;
      ZeroDelivered(numData, len, batchData, batchCode, last);
      assert arrivals[..last] == ZeroArrivals(numData, len, last);
      OneTargetMore(Delivered(arrivals[..last], batchData, batchCode), numData, batchData, last);
    }
  }

  lemma OneTargetMore(targets: set<nat>, numData: nat, batchData: nat, last: nat)
    requires ZeroTargets(targets, numData, batchData, last) && last < batchData
    ensures var index := if last < numData then last else batchData + (last - numData);
      ZeroTargets(targets + {index}, numData, batchData, last + 1)
  {
    var index := if last < numData then last else batchData + (last - numData);
    assert index !in targets;
  }

  lemma ZerosAreSent(numData: nat, numCode: nat, len: nat, a: Arrival)
    requires numData > 0 && a.bytes == Zeros(len)
    requires if a.DataArrival? then a.index < numData else a.position < numCode
    ensures EqualLengths(ZeroRows(numData, len)) && Sent(a, ZeroRows(numData, len), numCode)
  {
    hide Codeword, Cauchy, CodeShred, CauchyRow, GfInv, GfAdd, U8, AsNat, ZeroRows, Zeros, EqualLengths;
    ZeroRowsEqual(numData, len);
    if a.CodeArrival? { ZeroCodeword(numData, len, numCode, numData + a.position); }
  }

  lemma ZeroRowsEqual(count: nat, len: nat)
    requires count > 0
    ensures EqualLengths(ZeroRows(count, len))
  {}

  lemma ZerosAreHonest(len: nat, numData: nat, numCode: nat, a: Arrival)
    requires numData > 0 && a.bytes == Zeros(len)
    ensures EqualLengths(ZeroRows(numData, len)) && Honest(a, ZeroRows(numData, len), numCode)
  {
    hide Codeword, Cauchy, CodeShred, CauchyRow, GfInv, GfAdd, U8, AsNat, ZeroRows, Zeros, Target, EqualLengths;
    ZeroRowsEqual(numData, len);
    var target := Target(a, numData, numCode);
    if target.Some? { ZeroCodeword(numData, len, numCode, target.value); }
  }

  /** A batch of another size takes zero shreds of the sender for those of a sender of its own size,
      and recovers as many rows as that one would have. */
  lemma OtherSizeRecovered(numData: nat, numCode: nat, len: nat, batchData: nat, batchCode: nat)
    requires numData > 0 && batchData > 0 && PointsApart(batchData, batchCode)
    requires numData + Min(numCode, batchCode) >= batchData
    ensures var data, arrivals := ZeroRows(numData, len), ZeroArrivals(numData, len, batchData);
      var b := Run(NewBatch(0, 0, batchData, batchCode), arrivals);
      && IsSet(data, numData, len) && AllSent(arrivals, data, numCode)
      && CanRecover(b) && TryRecoverSpec(b) == Some(ZeroRows(batchData, len))
  {
    hide Codeword, Cauchy, CodeShred, CauchyRow, GfInv, GfAdd, U8, AsNat, Run, NewBatch, CanRecover,
      TryRecoverSpec, Delivered, PointsApart, Sent, Honest, ZeroArrivals, ZeroRows, Zeros;
    var data, other := ZeroRows(numData, len), ZeroRows(batchData, len);
    var arrivals := ZeroArrivals(numData, len, batchData);
    ZeroRowsEqual(numData, len);
    ZeroRowsEqual(batchData, len);
    forall k | 0 <= k < batchData
      ensures Sent(arrivals[k], data, numCode) && Honest(arrivals[k], other, batchCode)
    {
      ZerosAreSent(numData, numCode, len, arrivals[k]);
      ZerosAreHonest(len, batchData, batchCode, arrivals[k]);
    }
    ZeroDelivered(numData, len, batchData, batchCode, batchData);
    RunRecovers(0, 0, other, batchCode, arrivals);
  }

  /** For non-empty shreds these are other bytes. */
  lemma OtherBytesRecovered(numData: nat, numCode: nat, len: nat, batchData: nat, batchCode: nat)
    requires numData > 0 && batchData > 0 && numData != batchData && len > 0 && PointsApart(batchData, batchCode)
    requires numData + Min(numCode, batchCode) >= batchData
    ensures !AlwaysFaithful(numData, numCode, len, batchData, batchCode)
  {
    hide Run, NewBatch, CanRecover, TryRecoverSpec, PointsApart, AllSent, IsSet, ZeroArrivals, ZeroRows, Concat;
    OtherSizeRecovered(numData, numCode, len, batchData, batchCode);
    ZeroBytes(numData, len);
    ZeroBytes(batchData, len);
    SameMultiple(numData, batchData, len);
    assert !Faithful(ZeroRows(numData, len), batchData, batchCode, ZeroArrivals(numData, len, batchData));
  }

  /** For which set sizes every recovery is the sender's bytes, by the batch's size, for shreds of any
      length but zero. A batch of the sender's own size never recovers anything else. A batch of
      another size with the points of its matrix apart does exactly when it has as many data shreds,
      or more than the sender has shreds for. */
  lemma FaithfulExactly(numData: nat, numCode: nat, len: nat, batchData: nat, batchCode: nat)
    requires numData > 0 && batchData > 0 && len > 0
    ensures AlwaysFaithful(numData, numCode, len, numData, numCode)
    ensures PointsApart(batchData, batchCode) ==>
      (AlwaysFaithful(numData, numCode, len, batchData, batchCode) <==>
        numData == batchData || numData + Min(numCode, batchCode) < batchData)
  {
    hide PointsApart, Faithful;
    forall data: Matrix, arrivals: seq<Arrival> | IsSet(data, numData, len) && AllSent(arrivals, data, numCode)
      ensures Faithful(data, numData, numCode, arrivals)
      ensures numData == batchData ==> Faithful(data, batchData, batchCode, arrivals)
      ensures numData + Min(numCode, batchCode) < batchData ==> Faithful(data, batchData, batchCode, arrivals)
    {
      RunFaithful(data, numCode, numCode, arrivals);
      RunFaithful(data, numCode, batchCode, arrivals);
      if numData + Min(numCode, batchCode) < batchData {
        TooFewToRecover(data, numCode, batchData, batchCode, arrivals);
      }
    }
    if numData != batchData && numData + Min(numCode, batchCode) >= batchData && PointsApart(batchData, batchCode) {
      OtherBytesRecovered(numData, numCode, len, batchData, batchCode);
    }
  }
}
