/** The FEC batch of `fec_batch.rs`: the shreds received so far for one erasure set, and their
    recovery. */
module FecBatches {
  import opened Options
  import opened Gf256
  import opened LinearAlgebra
  import opened ReedSolomon
  import opened AnyKOfN

  type Slots = seq<Option<Vec>>

  /** The contents of a batch. */
  datatype BatchState = BatchState(
    slot: nat, fecSetIndex: nat, parentSlot: nat,
    numData: nat, numCode: nat,
    dataShreds: Slots, codeShreds: Slots)
  {
    ghost predicate Valid() {
      |dataShreds| == numData && |codeShreds| == numCode
    }
  }

  /** How many of the slots are filled. */
  function Count(s: Slots): nat {
    if |s| == 0 then 0
    else Count(s[..|s| - 1]) + if s[|s| - 1].Some? then 1 else 0
  }

  /** The indices of the filled slots, in order, shifted by `base`. */
  function Filled(s: Slots, base: nat): (r: seq<nat>)
    ensures |r| == Count(s)
  {
    if |s| == 0 then []
    else
      var r := Filled(s[..|s| - 1], base);
      if s[|s| - 1].Some? then r + [base + |s| - 1] else r
  }

  lemma {:induction false} FilledMembers(s: Slots, base: nat)
    ensures forall i :: i in Filled(s, base) <==> base <= i < base + |s| && s[i - base].Some?
  {
    if |s| > 0 { FilledMembers(s[..|s| - 1], base); }
  }

  lemma {:induction false} FilledDistinct(s: Slots, base: nat)
    ensures Distinct(Filled(s, base))
  {
    if |s| > 0 {
      FilledDistinct(s[..|s| - 1], base);
      FilledMembers(s[..|s| - 1], base);
      assert base + |s| - 1 !in Filled(s[..|s| - 1], base);
    }
  }

  // ---- What the batch's operations do to its contents ----

  ghost function NewBatch(slot: nat, fecSetIndex: nat, numData: nat, numCode: nat): (b: BatchState)
    ensures b.Valid()
  {
    BatchState(slot, fecSetIndex, 0, numData, numCode, seq(numData, _ => None), seq(numCode, _ => None))
  }

  ghost function AddData(b: BatchState, index: nat, bytes: Vec): (b': BatchState)
    requires b.Valid()
    ensures b'.Valid()
  {
    if index < b.numData && b.dataShreds[index].None?
    then b.(dataShreds := b.dataShreds[index := Some(bytes)]) else b
  }

  ghost function AddCode(b: BatchState, position: nat, bytes: Vec): (b': BatchState)
    requires b.Valid()
    ensures b'.Valid()
  {
    if position < b.numCode && b.codeShreds[position].None?
    then b.(codeShreds := b.codeShreds[position := Some(bytes)]) else b
  }

  ghost function ReceivedCount(b: BatchState): nat {
    Count(b.dataShreds) + Count(b.codeShreds)
  }

  /** The shred at an index of the set: data shreds first, then code shreds. */
  ghost function ShredAt(b: BatchState, idx: nat): Option<Vec>
    requires b.Valid() && idx < b.numData + b.numCode
  {
    if idx < b.numData then b.dataShreds[idx] else b.codeShreds[idx - b.numData]
  }

  /** The indices of all shreds received, data first. */
  ghost function AllIndices(b: BatchState): (r: seq<nat>)
    requires b.Valid()
    ensures |r| == ReceivedCount(b)
    ensures forall i: nat :: i in r <==> i < b.numData + b.numCode && ShredAt(b, i).Some?
    ensures AllPresent(b, r)
  {
    FilledMembers(b.dataShreds, 0);
    FilledMembers(b.codeShreds, b.numData);
    var r := Filled(b.dataShreds, 0) + Filled(b.codeShreds, b.numData);
    assert forall k :: 0 <= k < |r| ==> r[k] in r;
    r
  }

  ghost predicate AllPresent(b: BatchState, indices: seq<nat>)
    requires b.Valid()
  {
    forall k :: 0 <= k < |indices| ==> indices[k] < b.numData + b.numCode && ShredAt(b, indices[k]).Some?
  }

  /** The bytes at the given indices. */
  ghost function Gather(b: BatchState, indices: seq<nat>): (r: Matrix)
    requires b.Valid() && AllPresent(b, indices)
    ensures |r| == |indices| && forall k :: 0 <= k < |r| ==> r[k] == ShredAt(b, indices[k]).value
  {
    seq(|indices|, k requires 0 <= k < |indices| => ShredAt(b, indices[k]).value)
  }

  ghost predicate NeedsDecoding(b: BatchState) {
    Count(b.dataShreds) < b.numData <= ReceivedCount(b)
  }

  /** The rows `try_recover` passes to the decoder: the first `numData` shreds received. */
  ghost function ChosenIndices(b: BatchState): (r: seq<nat>)
    requires b.Valid() && NeedsDecoding(b)
    ensures |r| == b.numData
    ensures AllPresent(b, r)
  {
    AllIndices(b)[..b.numData]
  }

  /** `try_recover` does not stop the program. */
  ghost predicate CanRecover(b: BatchState)
    requires b.Valid()
  {
    NeedsDecoding(b) ==>
      CanDecode(Gather(b, ChosenIndices(b)), ChosenIndices(b), Cauchy(b.numData, b.numCode), b.numData)
  }

  lemma ChosenIndicesFit(b: BatchState)
    requires b.Valid() && NeedsDecoding(b)
    ensures ValidIndices(ChosenIndices(b), Cauchy(b.numData, b.numCode), b.numData)
    ensures Selection(ChosenIndices(b), b.numData, b.numCode)
  {
    hide Cauchy, GfInv, GfAdd, U8, AsNat;
    var chosen := ChosenIndices(b);
    FilledDistinct(b.dataShreds, 0);
    FilledDistinct(b.codeShreds, b.numData);
    FilledMembers(b.dataShreds, 0);
    FilledMembers(b.codeShreds, b.numData);
    ConcatDistinct(Filled(b.dataShreds, 0), Filled(b.codeShreds, b.numData));
  }

  lemma {:induction false} FilledIncreases(s: Slots, base: nat)
    ensures forall i, j :: 0 <= i < j < |Filled(s, base)| ==> Filled(s, base)[i] < Filled(s, base)[j]
  {
    if |s| > 0 {
      FilledIncreases(s[..|s| - 1], base);
      FilledMembers(s[..|s| - 1], base);
      var before := Filled(s[..|s| - 1], base);
      assert forall i :: 0 <= i < |before| ==> before[i] in before;
    }
  }

  ghost predicate BehindAll(indices: seq<nat>, idx: nat) {
    forall i :: 0 <= i < |indices| ==> indices[i] < idx
  }

  /** The rows chosen are the first ones present: they are in order, and every other shred present
      stands behind all of them. */
  lemma ChosenAreFirst(b: BatchState)
    requires b.Valid() && NeedsDecoding(b)
    ensures forall i, j :: 0 <= i < j < |ChosenIndices(b)| ==> ChosenIndices(b)[i] < ChosenIndices(b)[j]
    ensures forall idx: nat ::
      idx < b.numData + b.numCode && ShredAt(b, idx).Some? && idx !in ChosenIndices(b) ==>
      BehindAll(ChosenIndices(b), idx)
  {
    hide ShredAt, Count, Filled;
    var all, chosen := AllIndices(b), ChosenIndices(b);
    AllIncrease(b);
    forall idx: nat | idx < b.numData + b.numCode && ShredAt(b, idx).Some? && idx !in chosen
      ensures BehindAll(chosen, idx)
    {
      var k :| 0 <= k < |all| && all[k] == idx;
      assert |chosen| <= k;
    }
  }

  lemma AllIncrease(b: BatchState)
    requires b.Valid()
    ensures forall i, j :: 0 <= i < j < |AllIndices(b)| ==> AllIndices(b)[i] < AllIndices(b)[j]
  {
    FilledIncreases(b.dataShreds, 0);
    FilledIncreases(b.codeShreds, b.numData);
    FilledMembers(b.dataShreds, 0);
    FilledMembers(b.codeShreds, b.numData);
    var datas, codes := Filled(b.dataShreds, 0), Filled(b.codeShreds, b.numData);
    hide Filled, Count;
    forall i | 0 <= i < |datas| ensures datas[i] < b.numData { assert datas[i] in datas; }
    forall i | 0 <= i < |codes| ensures b.numData <= codes[i] { assert codes[i] in codes; }
  }

  lemma ConcatDistinct(s: seq<nat>, t: seq<nat>)
    requires Distinct(s) && Distinct(t) && forall i :: i in s ==> i !in t
    ensures Distinct(s + t)
  {
    forall i, j | 0 <= i < j < |s + t| ensures (s + t)[i] != (s + t)[j] {
      if i < |s| <= j { assert s[i] in s && t[j - |s|] in t; }
    }
  }

  /** The slots' bytes, an empty slot counting as empty bytes (`unwrap_or_default`). */
  function Unwrapped(s: Slots): Matrix {
    seq(|s|, i requires 0 <= i < |s| => if s[i].Some? then s[i].value else [])
  }

  ghost function TryRecoverSpec(b: BatchState): Option<Matrix>
    requires b.Valid() && CanRecover(b)
  {
    if ReceivedCount(b) < b.numData then None
    else if Count(b.dataShreds) == b.numData then
      Some(Unwrapped(b.dataShreds))
    else if NeedsDecoding(b) then
      ChosenIndicesFit(b);
      var chosen := ChosenIndices(b);
      DecodeSpec(Gather(b, chosen), chosen, Cauchy(b.numData, b.numCode), b.numData)
    else None
  }

  // ---- The batch object ----

  class FecBatch {
    const slot: nat
    const fecSetIndex: nat
    var parentSlot: nat
    const numData: nat
    const numCode: nat
    var dataShreds: Slots
    var codeShreds: Slots

    ghost function State(): BatchState
      reads this
    {
      BatchState(slot, fecSetIndex, parentSlot, numData, numCode, dataShreds, codeShreds)
    }

    ghost predicate Valid()
      reads this
    {
      State().Valid()
    }

    constructor (slot: nat, fecSetIndex: nat, numData: nat, numCode: nat)
      ensures Valid() && State() == NewBatch(slot, fecSetIndex, numData, numCode)
      ensures this.slot == slot && this.fecSetIndex == fecSetIndex && parentSlot == 0
      ensures this.numData == numData && this.numCode == numCode
      ensures forall i :: 0 <= i < numData ==> dataShreds[i].None?
      ensures forall i :: 0 <= i < numCode ==> codeShreds[i].None?
    {
      this.slot, this.fecSetIndex, this.parentSlot := slot, fecSetIndex, 0;
      this.numData, this.numCode := numData, numCode;
      dataShreds := seq(numData, _ => None);
      codeShreds := seq(numCode, _ => None);
    }

    method AddDataShred(dataIndex: nat, data: Vec) returns (added: bool)
      requires Valid()
      modifies this`dataShreds
      ensures Valid() && State() == AddData(old(State()), dataIndex, data)
      ensures added <==> dataIndex < numData && old(dataShreds)[dataIndex].None?
      ensures dataShreds == if added then old(dataShreds)[dataIndex := Some(data)] else old(dataShreds)
    {
      if dataIndex < numData && dataShreds[dataIndex].None? {
        dataShreds := dataShreds[dataIndex := Some(data)];
        added := true;
      } else {
        added := false;
      }
    }

    method AddCodeShred(codePosition: nat, data: Vec) returns (added: bool)
      requires Valid()
      modifies this`codeShreds
      ensures Valid() && State() == AddCode(old(State()), codePosition, data)
      ensures added <==> codePosition < numCode && old(codeShreds)[codePosition].None?
      ensures codeShreds == if added then old(codeShreds)[codePosition := Some(data)] else old(codeShreds)
    {
      if codePosition < numCode && codeShreds[codePosition].None? {
        codeShreds := codeShreds[codePosition := Some(data)];
        added := true;
      } else {
        added := false;
      }
    }

    /** `received_count` */
    function CountReceived(): (n: nat)
      reads this
      ensures n == ReceivedCount(State())
    {
      Count(dataShreds) + Count(codeShreds)
    }

    method TryRecover() returns (recovered: Option<Matrix>)
      requires Valid() && CanRecover(State())
      ensures CountReceived() < numData ==> recovered.None?
      ensures (forall i :: 0 <= i < numData ==> dataShreds[i].Some?) ==>
        && recovered.Some? && |recovered.value| == numData
        && forall i :: 0 <= i < numData ==> dataShreds[i] == Some(recovered.value[i])
      ensures recovered == TryRecoverSpec(State())
    {
      hide DecodeSpec, Cauchy;
      CountAtMost(dataShreds);
      var presentData := Count(dataShreds);
      var presentCode := Count(codeShreds);
      if presentData + presentCode < numData {
        return None;
      }
      if presentData == numData {
        return Some(Unwrapped(dataShreds));
      }
      ghost var b := State();
      assert NeedsDecoding(b);
      var received, rowIndices := GatherRows();
      ChosenIndicesFit(b);
      var cauchy := GenerateCauchyMatrix(numData, numCode);
      recovered := Decode(received, rowIndices, cauchy, numData);
    }

    /** Collects the rows for the decoder: every data shred present, then code shreds until there
        are `numData` rows. */
    method GatherRows() returns (received: Matrix, rowIndices: seq<nat>)
      requires Valid() && NeedsDecoding(State())
      ensures rowIndices == ChosenIndices(State())
      ensures received == Gather(State(), rowIndices)
    {
      hide Filled, RowsAt, AllIndices, Gather, ShredAt, ChosenIndices, Count, ReceivedCount, NeedsDecoding;
      ghost var b := State();
      FewDataRows(b);
      received, rowIndices := GatherData();
      ghost var dataRows := rowIndices;
      FilledStep(codeShreds, 0, numData);
      assert dataRows + [] == dataRows;
      for i := 0 to numCode
        invariant rowIndices == dataRows + Filled(codeShreds[..i], numData)
        invariant RowsAt(b, received, rowIndices) && |rowIndices| <= numData
      {
        RowCount(b, received, rowIndices);
        if |received| >= numData {
          FilledPrefix(codeShreds, i, numData);
          PrefixBehind(dataRows, Filled(codeShreds[..i], numData), Filled(codeShreds, numData));
          break;
        }
        FilledStep(codeShreds, i, numData);
        if codeShreds[i].Some? {
          ShredAtSlot(b, numData + i);
          OneBehind(dataRows, Filled(codeShreds[..i], numData), numData + i);
          RowAdded(b, received, rowIndices, numData + i);
          received := received + [codeShreds[i].value];
          rowIndices := rowIndices + [numData + i];
        }
      }
      assert codeShreds[..numCode] == codeShreds;
      RowsChosen(b, received, rowIndices);
    }

    method GatherData() returns (received: Matrix, rowIndices: seq<nat>)
      requires Valid()
      ensures rowIndices == Filled(dataShreds, 0) && RowsAt(State(), received, rowIndices)
    {
      hide Filled, RowsAt, ShredAt;
      ghost var b := State();
      received, rowIndices := [], [];
      FilledStep(dataShreds, 0, 0);
      NoRows(b);
      for i := 0 to numData
        invariant rowIndices == Filled(dataShreds[..i], 0)
        invariant RowsAt(b, received, rowIndices)
      {
        FilledStep(dataShreds, i, 0);
        if dataShreds[i].Some? {
          ShredAtSlot(b, i);
          RowAdded(b, received, rowIndices, i);
          received := received + [dataShreds[i].value];
          rowIndices := rowIndices + [i];
        }
      }
      assert dataShreds[..numData] == dataShreds;
    }
  }

  /** The rows are the shreds at the indices. */
  ghost predicate RowsAt(b: BatchState, received: Matrix, indices: seq<nat>)
    requires b.Valid()
  {
    && |received| == |indices|
    && forall k :: 0 <= k < |received| ==>
      indices[k] < b.numData + b.numCode && ShredAt(b, indices[k]) == Some(received[k])
  }

  lemma FewDataRows(b: BatchState)
    requires b.Valid() && NeedsDecoding(b)
    ensures |Filled(b.dataShreds, 0)| <= b.numData
  {}

  lemma PrefixBehind<T>(a: seq<T>, b: seq<T>, c: seq<T>)
    requires b <= c
    ensures a + b <= a + c
  {}

  lemma OneBehind<T>(a: seq<T>, b: seq<T>, x: T)
    ensures (a + b) + [x] == a + (b + [x])
  {}

  lemma ShredAtSlot(b: BatchState, idx: nat)
    requires b.Valid() && idx < b.numData + b.numCode
    ensures ShredAt(b, idx) == if idx < b.numData then b.dataShreds[idx] else b.codeShreds[idx - b.numData]
  {}

  lemma NoRows(b: BatchState)
    requires b.Valid()
    ensures RowsAt(b, [], [])
  {}

  lemma RowCount(b: BatchState, received: Matrix, indices: seq<nat>)
    requires b.Valid() && RowsAt(b, received, indices)
    ensures |received| == |indices|
  {}

  lemma RowAdded(b: BatchState, received: Matrix, indices: seq<nat>, idx: nat)
    requires b.Valid() && RowsAt(b, received, indices)
    requires idx < b.numData + b.numCode && ShredAt(b, idx).Some?
    ensures RowsAt(b, received + [ShredAt(b, idx).value], indices + [idx])
  {
    hide ShredAt;
  }

  lemma FilledStep(s: Slots, i: nat, base: nat)
    requires i <= |s|
    ensures i == 0 ==> Filled(s[..i], base) == []
    ensures i < |s| ==>
      Filled(s[..i + 1], base) == if s[i].Some? then Filled(s[..i], base) + [base + i] else Filled(s[..i], base)
  {
    if i < |s| {
      assert s[..i + 1][..i] == s[..i];
    }
  }

  /** The rows gathered are those of the indices chosen: all of them, or the first `numData`. */
  lemma RowsChosen(b: BatchState, received: Matrix, indices: seq<nat>)
    requires b.Valid() && NeedsDecoding(b) && RowsAt(b, received, indices)
    requires indices <= Filled(b.dataShreds, 0) + Filled(b.codeShreds, b.numData)
    requires |indices| <= b.numData
    requires |indices| == b.numData || indices == Filled(b.dataShreds, 0) + Filled(b.codeShreds, b.numData)
    ensures indices == ChosenIndices(b) && received == Gather(b, indices)
  {
    hide ShredAt, Filled;
    assert indices == AllIndices(b)[..b.numData];
  }

  lemma {:induction false} CountAtMost(s: Slots)
    ensures Count(s) <= |s|
    ensures Count(s) == |s| <==> forall i :: 0 <= i < |s| ==> s[i].Some?
  {
    if |s| > 0 {
      CountAtMost(s[..|s| - 1]);
    }
  }

  lemma {:induction false} FilledPrefix(s: Slots, i: nat, base: nat)
    requires i <= |s|
    ensures Filled(s[..i], base) <= Filled(s, base)
    decreases |s|
  {
    if i < |s| {
      assert s[..|s| - 1][..i] == s[..i];
      FilledPrefix(s[..|s| - 1], i, base);
    } else {
      assert s[..i] == s;
    }
  }

  // ---- Recovery from a consistent batch ----

  /** Every shred in the batch is the sender's. */
  ghost predicate Holds(b: BatchState, data: Matrix) {
    && b.Valid() && EqualLengths(data) && |data| == b.numData
    && forall i :: 0 <= i < b.numData + b.numCode && ShredAt(b, i).Some? ==>
      ShredAt(b, i).value == Codeword(data, b.numCode)[i]
  }

  lemma HoldsCanRecover(b: BatchState, data: Matrix)
    requires Holds(b, data)
    ensures CanRecover(b)
    ensures NeedsDecoding(b) ==>
      && Selection(ChosenIndices(b), b.numData, b.numCode)
      && Gather(b, ChosenIndices(b)) == Received(data, b.numCode, ChosenIndices(b))
  {
    hide Codeword, Cauchy, ShredAt;
    if NeedsDecoding(b) {
      ChosenIndicesFit(b);
      var chosen := ChosenIndices(b);
      forall k | 0 <= k < |chosen| ensures Gather(b, chosen)[k] == Received(data, b.numCode, chosen)[k] {
      }
    }
  }

  /** A batch of the sender's shreds recovers the sender's data exactly from `numData` shreds on. */
  lemma RecoversExactly(b: BatchState, data: Matrix)
    requires Holds(b, data) && PointsApart(b.numData, b.numCode)
    ensures CanRecover(b)
    ensures TryRecoverSpec(b) == if ReceivedCount(b) >= b.numData then Some(data) else None
  {
    hide Cauchy, DecodeSpec;
    HoldsCanRecover(b, data);
    CountAtMost(b.dataShreds);
    if Count(b.dataShreds) == b.numData {
      forall i | 0 <= i < b.numData ensures b.dataShreds[i] == Some(data[i]) {
        assert ShredAt(b, i) == b.dataShreds[i];
        assert Codeword(data, b.numCode)[i] == data[i];
      }
      assert TryRecoverSpec(b).value == data;
    } else if NeedsDecoding(b) {
      DecodeInvertsEncode(data, b.numCode, ChosenIndices(b));
    }
  }

  // ---- For which sizes the batch keeps its promise ----

  /** From `numData` shreds of the sender on, every batch of the sender's size recovers the data. */
  ghost predicate AlwaysRecovers(data: Matrix, numCode: nat) {
    forall b: BatchState | Holds(b, data) && b.numCode == numCode && ReceivedCount(b) >= |data| :: Recovers(b, data)
  }

  ghost predicate Recovers(b: BatchState, data: Matrix)
    requires Holds(b, data)
  {
    HoldsCanRecover(b, data);
    TryRecoverSpec(b) == Some(data)
  }

  /** The batch of a sender that holds every data shred but `j`, and code shred `i`. */
  ghost function Bereft(data: Matrix, numCode: nat, i: nat, j: nat): (b: BatchState)
    requires Rectangular(data)
    ensures b.Valid() && b.numData == |data| && b.numCode == numCode
  {
    BatchState(0, 0, 0, |data|, numCode,
      seq(|data|, k requires 0 <= k < |data| => if k == j then None else Some(Codeword(data, numCode)[k])),
      seq(numCode, k requires 0 <= k < numCode => if k == i then Some(Codeword(data, numCode)[|data| + k]) else None))
  }

  lemma BereftAt(data: Matrix, numCode: nat, i: nat, j: nat, idx: nat)
    requires Rectangular(data) && i < numCode && j < |data| && idx < |data| + numCode
    ensures ShredAt(Bereft(data, numCode, i, j), idx)
      == if idx != j && (idx >= |data| ==> idx == |data| + i) then Some(Codeword(data, numCode)[idx]) else None
  {
    hide Codeword;
  }

  lemma BereftIsHeld(data: Matrix, numCode: nat, i: nat, j: nat)
    requires EqualLengths(data) && i < numCode && j < |data|
    ensures Holds(Bereft(data, numCode, i, j), data)
  {
    hide Cauchy, Codeword, ShredAt, GfInv, GfAdd, U8, AsNat, CauchyRow, CodeShred, Bereft, PointsApart;
    var b := Bereft(data, numCode, i, j);
    forall idx: nat | idx < |data| + numCode && ShredAt(b, idx).Some?
      ensures ShredAt(b, idx).value == Codeword(data, numCode)[idx]
    {
      BereftAt(data, numCode, i, j, idx);
    }
  }

  lemma {:induction false} CountAllBut(s: Slots, j: nat)
    requires j < |s| && forall k :: 0 <= k < |s| ==> (s[k].Some? <==> k != j)
    ensures Count(s) == |s| - 1
    decreases |s|
  {
    if j < |s| - 1 {
      CountAllBut(s[..|s| - 1], j);
    } else {
      CountAtMost(s[..|s| - 1]);
    }
  }

  lemma {:induction false} CountNone(s: Slots)
    requires forall k :: 0 <= k < |s| ==> s[k].None?
    ensures Count(s) == 0
    decreases |s|
  {
    if |s| > 0 { CountNone(s[..|s| - 1]); }
  }

  lemma {:induction false} CountOnly(s: Slots, i: nat)
    requires i < |s| && forall k :: 0 <= k < |s| ==> (s[k].Some? <==> k == i)
    ensures Count(s) == 1
    decreases |s|
  {
    if i < |s| - 1 {
      CountOnly(s[..|s| - 1], i);
    } else {
      CountNone(s[..|s| - 1]);
    }
  }

  lemma BereftHolds(data: Matrix, numCode: nat, i: nat, j: nat)
    requires EqualLengths(data) && i < numCode && j < |data|
    ensures Holds(Bereft(data, numCode, i, j), data)
    ensures ReceivedCount(Bereft(data, numCode, i, j)) == |data|
    ensures NeedsDecoding(Bereft(data, numCode, i, j))
  {
    hide Cauchy, Codeword, Count, GfInv, GfAdd, U8, AsNat, CauchyRow, CodeShred, Holds;
    var b := Bereft(data, numCode, i, j);
    BereftIsHeld(data, numCode, i, j);
    CountAllBut(b.dataShreds, j);
    CountOnly(b.codeShreds, i);
  }

  /** For all data, the batch recovers from any `numData` of its shreds exactly when the points of its
      Cauchy matrix stay apart: for sizes outside that bound some `numData` honest shreds recover
      nothing. */
  lemma AlwaysRecoversExactly(data: Matrix, numCode: nat)
    requires EqualLengths(data)
    ensures AlwaysRecovers(data, numCode) <==> PointsApart(|data|, numCode)
  {
    hide Cauchy, DecodeSpec, TryRecoverSpec, Holds, PointsApart, CodeShred, CauchyRow, GfInv, GfAdd, U8, AsNat,
      Codeword;
    if PointsApart(|data|, numCode) {
      forall b: BatchState | Holds(b, data) && b.numCode == numCode && ReceivedCount(b) >= |data|
        ensures Recovers(b, data)
      {
        assert b.numData == |data| by { HoldsSize(b, data); }
        RecoversExactly(b, data);
      }
    } else {
      var i, j := CollidingPoints(|data|, numCode);
      BereftHolds(data, numCode, i, j);
      BereftFails(data, numCode, i, j);
      assert !Recovers(Bereft(data, numCode, i, j), data);
    }
  }

  lemma HoldsSize(b: BatchState, data: Matrix)
    requires Holds(b, data)
    ensures b.numData == |data|
  {
    hide Codeword;
  }

  lemma BereftFails(data: Matrix, numCode: nat, i: nat, j: nat)
    requires EqualLengths(data) && i < numCode && j < |data| && Cauchy(|data|, numCode)[i][j] == 0
    ensures var b := Bereft(data, numCode, i, j);
      b.Valid() && CanRecover(b) && TryRecoverSpec(b) == None
  {
    hide Cauchy, Singular, System, Holds, Bereft, ChosenIndices, ShredAt, TryRecoverSpec, CanRecover, GfInv,
      GfAdd, U8, AsNat, CauchyRow, CodeShred, Codeword;
    var b := Bereft(data, numCode, i, j);
    BereftHolds(data, numCode, i, j);
    HoldsCanRecover(b, data);
    ChosenIndicesFit(b);
    var chosen := ChosenIndices(b);
    forall r | 0 <= r < |data| ensures Omits(chosen[r], Cauchy(|data|, numCode), |data|, j) {
      BereftAt(data, numCode, i, j, chosen[r]);
    }
    hide Omits;
    ColumnLost(chosen, Cauchy(|data|, numCode), |data|, j);
    SingularChoiceFails(b);
  }

  lemma SingularChoiceFails(b: BatchState)
    requires b.Valid() && CanRecover(b) && NeedsDecoding(b)
    requires ValidIndices(ChosenIndices(b), Cauchy(b.numData, b.numCode), b.numData)
    requires Singular(System(ChosenIndices(b), Cauchy(b.numData, b.numCode), b.numData))
    ensures TryRecoverSpec(b) == None
  {
    hide Cauchy, Singular, System, Explains, ChosenIndices;
  }

  // ---- Runs of deliveries ----

  datatype Arrival = DataArrival(index: nat, bytes: Vec) | CodeArrival(position: nat, bytes: Vec)

  /** The index in the set that an arrival fills, if it is within the set. */
  ghost function Target(a: Arrival, numData: nat, numCode: nat): (r: Option<nat>)
    ensures r.Some? ==> r.value < numData + numCode
  {
    match a
    case DataArrival(index, _) => if index < numData then Some(index) else None
    case CodeArrival(position, _) => if position < numCode then Some(numData + position) else None
  }

  ghost function Deliver(b: BatchState, a: Arrival): (b': BatchState)
    requires b.Valid()
    ensures b'.Valid() && b'.numData == b.numData && b'.numCode == b.numCode
  {
    match a
    case DataArrival(index, bytes) => AddData(b, index, bytes)
    case CodeArrival(position, bytes) => AddCode(b, position, bytes)
  }

  ghost function Run(b: BatchState, arrivals: seq<Arrival>): (b': BatchState)
    requires b.Valid()
    ensures b'.Valid() && b'.numData == b.numData && b'.numCode == b.numCode
  {
    if |arrivals| == 0 then b
    else Deliver(Run(b, arrivals[..|arrivals| - 1]), arrivals[|arrivals| - 1])
  }

  /** An arrival carries the sender's bytes. One outside the set may carry anything. */
  ghost predicate Honest(a: Arrival, data: Matrix, numCode: nat)
    requires EqualLengths(data)
  {
    var target := Target(a, |data|, numCode);
    target.Some? ==> a.bytes == Codeword(data, numCode)[target.value]
  }

  /** The indices that a run fills: no matter how often, or in what order. */
  ghost function Delivered(arrivals: seq<Arrival>, numData: nat, numCode: nat): set<nat> {
    if |arrivals| == 0 then {}
    else
      var target := Target(arrivals[|arrivals| - 1], numData, numCode);
      Delivered(arrivals[..|arrivals| - 1], numData, numCode) + if target.Some? then {target.value} else {}
  }

  lemma DeliverFills(b: BatchState, a: Arrival, i: nat)
    requires b.Valid() && i < b.numData + b.numCode
    ensures var target := Target(a, b.numData, b.numCode);
      ShredAt(Deliver(b, a), i) == if target == Some(i) && ShredAt(b, i).None? then Some(a.bytes) else ShredAt(b, i)
  {}

  /** One honest arrival keeps the batch the sender's, and fills the index it is for. */
  lemma DeliverHolds(b: BatchState, a: Arrival, data: Matrix)
    requires Holds(b, data) && Honest(a, data, b.numCode)
    ensures Holds(Deliver(b, a), data)
    ensures forall i: nat :: i < b.numData + b.numCode ==>
      (ShredAt(Deliver(b, a), i).Some? <==> ShredAt(b, i).Some? || Target(a, b.numData, b.numCode) == Some(i))
  {
    hide Codeword, Deliver, ShredAt;
    forall i: nat | i < b.numData + b.numCode ensures
      var target := Target(a, b.numData, b.numCode);
      ShredAt(Deliver(b, a), i) == if target == Some(i) && ShredAt(b, i).None? then Some(a.bytes) else ShredAt(b, i) {
      DeliverFills(b, a, i);
    }
  }

  /** After any run of honest arrivals the batch holds the sender's shreds at exactly the
      delivered indices. */
  lemma {:induction false} RunHolds(slot: nat, fecSetIndex: nat, data: Matrix, numCode: nat, arrivals: seq<Arrival>)
    requires EqualLengths(data)
    requires forall k :: 0 <= k < |arrivals| ==> Honest(arrivals[k], data, numCode)
    ensures var b := Run(NewBatch(slot, fecSetIndex, |data|, numCode), arrivals);
      && Holds(b, data)
      && (forall i: nat :: i in Delivered(arrivals, |data|, numCode) <==>
        i < |data| + numCode && ShredAt(b, i).Some?)
  {
    hide Codeword, Deliver;
    if |arrivals| > 0 {
      var before := arrivals[..|arrivals| - 1];
      RunHolds(slot, fecSetIndex, data, numCode, before);
      DeliverHolds(Run(NewBatch(slot, fecSetIndex, |data|, numCode), before), arrivals[|arrivals| - 1], data);
    }
  }

  /** Over every run of honest arrivals, in any order, with loss and duplication, recovery returns
      the sender's data as soon as `numData` distinct shreds have arrived, and nothing before. */
  lemma RunRecovers(slot: nat, fecSetIndex: nat, data: Matrix, numCode: nat, arrivals: seq<Arrival>)
    requires EqualLengths(data) && PointsApart(|data|, numCode)
    requires forall k :: 0 <= k < |arrivals| ==> Honest(arrivals[k], data, numCode)
    ensures var b := Run(NewBatch(slot, fecSetIndex, |data|, numCode), arrivals);
      && CanRecover(b)
      && TryRecoverSpec(b) == if |Delivered(arrivals, |data|, numCode)| >= |data| then Some(data) else None
  {
    hide Codeword, Cauchy, DecodeSpec, TryRecoverSpec;
    var b := Run(NewBatch(slot, fecSetIndex, |data|, numCode), arrivals);
    RunHolds(slot, fecSetIndex, data, numCode, arrivals);
    RecoversExactly(b, data);
    DeliveredCount(b, Delivered(arrivals, |data|, numCode));
  }

  lemma DeliveredCount(b: BatchState, delivered: set<nat>)
    requires b.Valid()
    requires forall i: nat :: i in delivered <==> i < b.numData + b.numCode && ShredAt(b, i).Some?
    ensures ReceivedCount(b) == |delivered|
  {
    var all := AllIndices(b);
    FilledDistinct(b.dataShreds, 0);
    FilledDistinct(b.codeShreds, b.numData);
    FilledMembers(b.dataShreds, 0);
    FilledMembers(b.codeShreds, b.numData);
    ConcatDistinct(Filled(b.dataShreds, 0), Filled(b.codeShreds, b.numData));
    DistinctSize(all);
    assert IndexSet(all) == delivered;
  }

  /** Two honest runs that deliver the same indices recover the same, and delivering more never
      changes an answer already given. */
  lemma RecoveryStable(
    slot: nat, fecSetIndex: nat, data: Matrix, numCode: nat, first: seq<Arrival>, second: seq<Arrival>)
    requires EqualLengths(data) && PointsApart(|data|, numCode)
    requires forall k :: 0 <= k < |first| ==> Honest(first[k], data, numCode)
    requires forall k :: 0 <= k < |second| ==> Honest(second[k], data, numCode)
    requires Delivered(first, |data|, numCode) <= Delivered(second, |data|, numCode)
    ensures var batch := NewBatch(slot, fecSetIndex, |data|, numCode);
      && CanRecover(Run(batch, first)) && CanRecover(Run(batch, second))
      && (TryRecoverSpec(Run(batch, first)).Some? ==>
        TryRecoverSpec(Run(batch, second)) == TryRecoverSpec(Run(batch, first)))
      && (Delivered(first, |data|, numCode) == Delivered(second, |data|, numCode) ==>
        TryRecoverSpec(Run(batch, second)) == TryRecoverSpec(Run(batch, first)))
  {
    hide TryRecoverSpec, Run, CanRecover, Delivered;
    RunRecovers(slot, fecSetIndex, data, numCode, first);
    RunRecovers(slot, fecSetIndex, data, numCode, second);
    SubsetSize(Delivered(first, |data|, numCode), Delivered(second, |data|, numCode));
  }
}
