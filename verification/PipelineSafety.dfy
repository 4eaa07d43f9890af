/** What the receive path keeps over every run, and what it does over runs with honest shreds: no
    panic, every recovery is the sender's data, exactly the sets still open are pending, and exactly
    the last complete set of each slot is stored and served. */
module PipelineSafety {
  import opened Options
  import opened Arithmetic
  import opened Gf256
  import opened LinearAlgebra
  import opened ReedSolomon
  import opened AnyKOfN
  import opened FecBatches
  import opened FecSizes
  import opened Deshredder
  import opened Merkle
  import opened RingBuffers
  import opened Pipeline

  /** An erasure set as its sender encoded it: the data shreds and the number of code shreds. */
  datatype SenderSet = SenderSet(data: Matrix, numCode: nat)

  type Senders = map<SetId, SenderSet>

  ghost predicate ValidSenders(senders: Senders) {
    forall id :: id in senders ==> ValidSet(senders[id])
  }

  /** A set has 32 data shreds of one length and at most 32 code shreds. */
  ghost predicate ValidSet(s: SenderSet) {
    EqualLengths(s.data) && |s.data| == 32 && s.numCode <= 32
  }

  /** The shred belongs to a sender's set and carries the set's bytes. */
  ghost predicate HonestShred(shred: Shred, senders: Senders)
    requires ValidSenders(senders)
  {
    IdOf(shred) in senders && HonestFor(shred, senders[IdOf(shred)])
  }

  /** The shred carries the bytes and, if it is a code shred, the sizes of the set. */
  ghost predicate HonestFor(shred: Shred, s: SenderSet)
    requires ValidSet(s)
  {
    && NumData(shred) == 32
    && (shred.MerkleCode? ==> shred.numCodingShreds == s.numCode && shred.position < s.numCode)
    && Honest(ShredArrival(shred), s.data, s.numCode)
  }

  // ---- Every run, honest or not ----

  ghost function Init(capacity: nat): PipelineState {
    PipelineState(map[], NewRing(capacity), map[])
  }

  /** A shred that cannot be processed stops the program, so the state stays as it is. The runs that
      meet none are the processable ones. */
  ghost function RunFrom(h: Hasher, capacity: nat, shreds: seq<Shred>): PipelineState {
    if shreds == [] then Init(capacity)
    else
      var st, shred := RunFrom(h, capacity, shreds[..|shreds| - 1]), shreds[|shreds| - 1];
      if CanProcess(st, shred) then Process(h, st, shred) else st
  }

  ghost predicate Processable(h: Hasher, capacity: nat, shreds: seq<Shred>) {
    shreds == [] || (
      && Processable(h, capacity, shreds[..|shreds| - 1])
      && CanProcess(RunFrom(h, capacity, shreds[..|shreds| - 1]), shreds[|shreds| - 1]))
  }

  lemma {:induction false} ProcessablePrefix(h: Hasher, capacity: nat, shreds: seq<Shred>, i: nat)
    requires Processable(h, capacity, shreds) && i <= |shreds|
    ensures Processable(h, capacity, shreds[..i])
    decreases |shreds|
  {
    hide CanProcess, RunFrom;
    if i < |shreds| {
      assert shreds[..|shreds| - 1][..i] == shreds[..i];
      ProcessablePrefix(h, capacity, shreds[..|shreds| - 1], i);
    } else {
      assert shreds[..i] == shreds;
    }
  }

  /** The receive loop: it ends in the state of the run. */
  method ReceiveAll(h: Hasher, capacity: nat, shreds: seq<Shred>) returns (r: Receiver)
    requires 0 < capacity < TWO_64 && Processable(h, capacity, shreds)
    ensures r.Valid() && r.State() == RunFrom(h, capacity, shreds)
  {
    hide Process, CanProcess;
    r := new Receiver(h, capacity);
    assert shreds[..0] == [];
    for i := 0 to |shreds|
      invariant r.Valid() && r.Filed() && r.h == h
      invariant fresh(r) && fresh(r.ring) && fresh(r.ring.slots)
      invariant forall b :: b in r.batches.Values ==> fresh(b)
      invariant r.State() == RunFrom(h, capacity, shreds[..i])
    {
      ProcessablePrefix(h, capacity, shreds, i + 1);
      assert shreds[..i + 1][..i] == shreds[..i];
      r.ProcessShred(shreds[i]);
    }
    assert shreds[..|shreds|] == shreds;
  }

  /** Every batch is well-formed and carries the slot it is filed under. */
  ghost predicate WellFormed(st: PipelineState) {
    && |st.ring.slots| > 0
    && forall id :: id in st.batches ==> st.batches[id].Valid() && st.batches[id].slot == id.slot
  }

  lemma BatchWellFormed(st: PipelineState, shred: Shred)
    requires WellFormed(st)
    ensures var b := BatchFor(st.batches, shred);
      b.Valid() && b.slot == shred.slot && AddShred(b, shred).slot == shred.slot
  {
    hide NewBatch;
    if IdOf(shred) !in st.batches {
      NewBatchSize(shred.slot, shred.fecSetIndex, NumData(shred), NumCode(shred));
    }
  }

  lemma NewBatchSize(slot: nat, fecSetIndex: nat, numData: nat, numCode: nat)
    ensures var b := NewBatch(slot, fecSetIndex, numData, numCode);
      && b.slot == slot && b.numData == numData && b.numCode == numCode
      && forall i: nat :: i < b.numData + b.numCode ==> ShredAt(b, i).None?
  {}

  /** The files after a set was recovered. */
  ghost function FilesAfter(files: map<nat, Bytes>, slot: nat, data: Matrix): map<nat, Bytes> {
    if Deshred(Concat(data)).Some? then files[slot := Concat(data)] else files
  }

  lemma StoreFrame(h: Hasher, st: PipelineState, b: BatchState, recovered: Matrix)
    requires |st.ring.slots| > 0
    ensures var st' := Store(h, st, b, recovered);
      && st'.batches == st.batches && |st'.ring.slots| == |st.ring.slots|
      && st'.files == FilesAfter(st.files, b.slot, recovered)
  {
    hide Deshred, BlockOf, Concat, PutIn;
  }

  /** A shred changes no set but its own and no file but its slot's, whatever it carries. */
  lemma StepKeepsOthers(h: Hasher, st: PipelineState, shred: Shred)
    requires WellFormed(st) && CanProcess(st, shred)
    ensures var st' := Process(h, st, shred);
      && WellFormed(st')
      && st'.batches - {IdOf(shred)} == st.batches - {IdOf(shred)}
      && st'.files - {shred.slot} == st.files - {shred.slot}
  {
    hide AddShred, BatchFor, TryRecoverSpec, CanRecover, Store, Deshred, Concat;
    BatchWellFormed(st, shred);
    var id, b := IdOf(shred), AddShred(BatchFor(st.batches, shred), shred);
    if RecoveredBy(st, shred).Some? {
      StoreFrame(h, st, b, RecoveredBy(st, shred).value);
    } else {
      assert st.batches[id := b] - {id} == st.batches - {id};
    }
  }

  lemma {:induction false} RunWellFormed(h: Hasher, capacity: nat, shreds: seq<Shred>)
    requires capacity > 0
    ensures WellFormed(RunFrom(h, capacity, shreds))
  {
    hide Process, CanProcess, WellFormed;
    if shreds == [] {
      assert WellFormed(Init(capacity)) by { InitWellFormed(capacity); }
    } else {
      var st, shred := RunFrom(h, capacity, shreds[..|shreds| - 1]), shreds[|shreds| - 1];
      RunWellFormed(h, capacity, shreds[..|shreds| - 1]);
      if CanProcess(st, shred) { StepKeepsOthers(h, st, shred); }
    }
  }

  lemma InitWellFormed(capacity: nat)
    requires capacity > 0
    ensures WellFormed(Init(capacity))
  {}

  // ---- Hot and cold ----

  /** The cached block is the one that the file deshreds to. */
  ghost predicate BlockMatches(h: Hasher, d: SlotData, file: Bytes) {
    Deshred(file).Some? && d == BlockOf(h, d.slot, d.parentSlot, Deshred(file).value)
  }

  /** Every cached block is the one that its file deshreds to, and every file deshreds. */
  ghost predicate Agreement(h: Hasher, ring: Ring, files: map<nat, Bytes>) {
    && |ring.slots| > 0
    && (forall c :: 0 <= c < |ring.slots| && ring.slots[c].Some? ==>
      var d := ring.slots[c].value;
      d.slot % |ring.slots| == c && d.slot in files && BlockMatches(h, d, files[d.slot]))
    && (forall slot :: slot in files ==> Deshred(files[slot]).Some?)
  }

  lemma BlockFields(h: Hasher, slot: nat, parentSlot: nat, result: DeshredResult)
    ensures var d := BlockOf(h, slot, parentSlot, result);
      d.slot == slot && d.parentSlot == parentSlot
  {}

  lemma StoreKeepsAgreement(h: Hasher, st: PipelineState, b: BatchState, recovered: Matrix)
    requires Agreement(h, st.ring, st.files)
    ensures var st' := Store(h, st, b, recovered);
      Agreement(h, st'.ring, st'.files)
  {
    hide Deshred, BlockOf, Concat;
    var file := Concat(recovered);
    if Deshred(file).Some? {
      var d := BlockOf(h, b.slot, b.parentSlot, Deshred(file).value);
      BlockFields(h, b.slot, b.parentSlot, Deshred(file).value);
      assert BlockMatches(h, d, file);
    }
  }

  lemma ShredsBatchValid(st: PipelineState, shred: Shred)
    requires CanProcess(st, shred)
    ensures BatchFor(st.batches, shred).Valid()
  {
    hide CanRecover;
  }

  /** Whatever a shred carries, processing it keeps the ring and the disk in agreement. */
  lemma StepKeepsAgreement(h: Hasher, st: PipelineState, shred: Shred)
    requires CanProcess(st, shred) && Agreement(h, st.ring, st.files)
    ensures var st' := Process(h, st, shred);
      Agreement(h, st'.ring, st'.files)
  {
    hide CanProcess, RecoveredBy, Store, AddShred, BatchFor, Agreement;
    ShredsBatchValid(st, shred);
    if RecoveredBy(st, shred).Some? {
      StoreKeepsAgreement(h, st, AddShred(BatchFor(st.batches, shred), shred), RecoveredBy(st, shred).value);
    }
  }

  lemma {:induction false} RunAgrees(h: Hasher, capacity: nat, shreds: seq<Shred>)
    requires capacity > 0
    ensures var st := RunFrom(h, capacity, shreds);
      Agreement(h, st.ring, st.files)
    decreases |shreds|
  {
    hide CanProcess, Process, Agreement;
    if shreds == [] {
      assert Agreement(h, Init(capacity).ring, Init(capacity).files) by { InitAgrees(h, capacity); }
    } else {
      var st, shred := RunFrom(h, capacity, shreds[..|shreds| - 1]), shreds[|shreds| - 1];
      RunAgrees(h, capacity, shreds[..|shreds| - 1]);
      if CanProcess(st, shred) {
        StepKeepsAgreement(h, st, shred);
      }
    }
  }

  lemma InitAgrees(h: Hasher, capacity: nat)
    requires capacity > 0
    ensures Agreement(h, Init(capacity).ring, Init(capacity).files)
  {}

  /** After every run, of whatever shreds: the ring and the disk give the same transactions and the same
      tree, so eviction never changes an answer, exactly when the block has a transaction; an empty
      block is refused while cached and served from disk. */
  lemma HotColdAgreement(h: Hasher, capacity: nat, shreds: seq<Shred>, slot: nat)
    requires capacity > 0 && GetFrom(RunFrom(h, capacity, shreds).ring, slot).Some?
    ensures var st := RunFrom(h, capacity, shreds);
      && LoadFromDisk(h, st.files, slot).Some?
      && (LoadSlot(h, st, slot) == LoadFromDisk(h, st.files, slot) <==>
        GetFrom(st.ring, slot).value.numTransactions > 0)
  {
    hide Deshred, Build, Concat, RunFrom;
    RunAgrees(h, capacity, shreds);
    var st := RunFrom(h, capacity, shreds);
    SinglePayload(st.files[slot]);
    DeshredFlattens(st.files[slot]);
  }

  lemma SinglePayload(file: Bytes)
    ensures Concat([file]) == file
  {
    assert Concat([file]) == file + Concat([]);
  }

  lemma DeshredFlattens(file: Bytes)
    ensures Deshred(file).Some? ==> Deshred(file).value.transactions == Flatten(Deshred(file).value.entries)
  {}

  /** What `load_slot_data` answers for a stored file: its transactions and their tree, but nothing
      for an empty block that is still cached. */
  ghost function Served(h: Hasher, file: Bytes, cached: bool): Option<(seq<Bytes>, MerkleTree)>
    requires Deshred(file).Some?
  {
    var txs := Deshred(file).value.transactions;
    if txs == [] && cached then None else Some((txs, Build(h, txs)))
  }

  /** After every run the files decide what is served, up to empty blocks in the cache. */
  lemma ServedFromFiles(h: Hasher, capacity: nat, shreds: seq<Shred>, slot: nat)
    requires capacity > 0
    ensures var st := RunFrom(h, capacity, shreds);
      && (slot !in st.files ==> LoadSlot(h, st, slot) == None)
      && (slot in st.files ==>
        && Deshred(st.files[slot]).Some?
        && LoadSlot(h, st, slot) == Served(h, st.files[slot], GetFrom(st.ring, slot).Some?))
  {
    hide Deshred, Build, Concat, RunFrom;
    RunAgrees(h, capacity, shreds);
    var st := RunFrom(h, capacity, shreds);
    if slot in st.files {
      SinglePayload(st.files[slot]);
      DeshredFlattens(st.files[slot]);
    }
  }

  /** After every run, what a cached block says about itself is what its file holds. */
  lemma CachedBlock(h: Hasher, capacity: nat, shreds: seq<Shred>, slot: nat)
    requires capacity > 0 && GetFrom(RunFrom(h, capacity, shreds).ring, slot).Some?
    ensures var st := RunFrom(h, capacity, shreds);
      && slot in st.files && Deshred(st.files[slot]).Some?
      && var d, result := GetFrom(st.ring, slot).value, Deshred(st.files[slot]).value;
        && d.slot == slot && d.entries == result.entries && d.numTransactions == |result.transactions|
        && d.merkleTree == Some(Build(h, result.transactions))
        && d.merkleRoot == Some(Build(h, result.transactions).root)
  {
    hide Deshred, Build, RunFrom;
    RunAgrees(h, capacity, shreds);
  }

  // ---- The ring over a run ----

  /** The block that a shred makes the receive path store, if any. */
  ghost function StoredBy(h: Hasher, st: PipelineState, shred: Shred): seq<SlotData> {
    if !CanProcess(st, shred) || RecoveredBy(st, shred).None? then []
    else
      var b := AddShred(BatchFor(st.batches, shred), shred);
      match Deshred(Concat(RecoveredBy(st, shred).value))
      case None => []
      case Some(result) => [BlockOf(h, b.slot, b.parentSlot, result)]
  }

  /** The blocks stored over a run, in order. */
  ghost function StoredBlocks(h: Hasher, capacity: nat, shreds: seq<Shred>): seq<SlotData> {
    if shreds == [] then []
    else
      var before := shreds[..|shreds| - 1];
      StoredBlocks(h, capacity, before) + StoredBy(h, RunFrom(h, capacity, before), shreds[|shreds| - 1])
  }

  lemma StepStores(h: Hasher, st: PipelineState, shred: Shred)
    requires |st.ring.slots| > 0
    ensures var st' := if CanProcess(st, shred) then Process(h, st, shred) else st;
      var stored := StoredBy(h, st, shred);
      && (stored == [] ==> st'.ring == st.ring && st'.files == st.files)
      && (stored != [] ==>
        && stored == [stored[0]] && st'.ring == PutIn(st.ring, stored[0])
        && st'.files.Keys == st.files.Keys + {stored[0].slot})
  {
    hide Deshred, Concat, CanProcess, RecoveredBy, AddShred, BatchFor, PutIn, Build;
  }

  lemma PutOneMore(capacity: nat, puts: seq<SlotData>, d: SlotData, slot: nat)
    requires capacity > 0
    ensures PutAll(capacity, puts + [d]) == PutIn(PutAll(capacity, puts), d)
    ensures LatestPut(puts + [d], slot) == if d.slot == slot then Some(d) else LatestPut(puts, slot)
  {
    hide PutIn;
    assert (puts + [d])[..|puts|] == puts;
  }

  /** Over every run, honest or not, the ring is the ring of the blocks stored, and there is a file for
      exactly their slots. What it answers is thus decided by `RingRefinesMap`. */
  lemma {:induction false} RingOfRun(h: Hasher, capacity: nat, shreds: seq<Shred>)
    requires capacity > 0
    ensures var st, blocks := RunFrom(h, capacity, shreds), StoredBlocks(h, capacity, shreds);
      && st.ring == PutAll(capacity, blocks)
      && forall slot: nat :: slot in st.files <==> LatestPut(blocks, slot).Some?
    decreases |shreds|
  {
    hide Process, CanProcess, StoredBy, PutIn, PutAll, LatestPut;
    if shreds == [] {
      assert PutAll(capacity, []) == NewRing(capacity) by { NoPuts(capacity, 0); }
      forall slot: nat ensures LatestPut([], slot).None? { NoPuts(capacity, slot); }
    } else {
      var before := shreds[..|shreds| - 1];
      var st, blocks := RunFrom(h, capacity, before), StoredBlocks(h, capacity, before);
      RingOfRun(h, capacity, before);
      StepStores(h, st, shreds[|shreds| - 1]);
      var stored := StoredBy(h, st, shreds[|shreds| - 1]);
      if stored == [] {
        assert blocks + stored == blocks;
      } else {
        assert blocks + stored == blocks + [stored[0]];
        var d := stored[0];
        forall slot: nat ensures
          LatestPut(blocks + stored, slot) == if d.slot == slot then Some(d) else LatestPut(blocks, slot)
        {
          PutOneMore(capacity, blocks, d, slot);
        }
        PutOneMore(capacity, blocks, d, 0);
      }
    }
  }

  lemma NoPuts(capacity: nat, slot: nat)
    requires capacity > 0
    ensures PutAll(capacity, []) == NewRing(capacity) && LatestPut([], slot).None?
  {}

  // ---- One honest shred ----

  /** A pending batch holds only its sender's shreds, and too few to recover. Its number of code
      shreds is the set's or, if a data shred came first, the default. */
  ghost predicate Pending(b: BatchState, s: SenderSet) {
    SizeOfSet(b, s) && Holds(b, s.data) && ReceivedCount(b) < 32
  }

  ghost predicate SizeOfSet(b: BatchState, s: SenderSet) {
    b.numCode == s.numCode || b.numCode == 32
  }

  /** The set's batch, if there is one, is pending. */
  ghost predicate SetPending(batches: map<SetId, BatchState>, id: SetId, s: SenderSet) {
    id in batches ==> Pending(batches[id], s)
  }

  /** The index of its set that a shred is for. */
  ghost function TargetOf(shred: Shred): (r: Option<nat>)
    ensures r.Some? ==> r.value < 64
  {
    Target(ShredArrival(shred), 32, 32)
  }

  lemma SizesRecover(numCode: nat)
    requires numCode <= 32
    ensures PointsApart(32, numCode)
  {}

  /** A shred honest for its set is honest, and for the same index, in a batch of either size. */
  lemma HonestInBatch(shred: Shred, s: SenderSet, numCode: nat)
    requires ValidSet(s) && HonestFor(shred, s) && (numCode == s.numCode || numCode == 32)
    ensures Honest(ShredArrival(shred), s.data, numCode)
    ensures Target(ShredArrival(shred), 32, numCode) == TargetOf(shred)
  {
    hide Codeword, Cauchy, CodeShred, CauchyRow, GfInv, GfAdd, U8, AsNat;
    var target := TargetOf(shred);
    if target.Some? {
      SameCodeShreds(s.data, s.numCode, numCode, target.value);
    }
  }

  lemma EmptyBatchHolds(slot: nat, fecSetIndex: nat, data: Matrix, numCode: nat)
    requires EqualLengths(data)
    ensures Holds(NewBatch(slot, fecSetIndex, |data|, numCode), data)
    ensures ReceivedCount(NewBatch(slot, fecSetIndex, |data|, numCode)) == 0
  {
    RunHolds(slot, fecSetIndex, data, numCode, []);
    DeliveredCount(NewBatch(slot, fecSetIndex, |data|, numCode), {});
  }

  /** The batch that an honest shred goes into, before and after. */
  lemma BatchAfterShred(st: PipelineState, s: SenderSet, shred: Shred)
    requires ValidSet(s) && SetPending(st.batches, IdOf(shred), s) && HonestFor(shred, s)
    ensures var before := BatchFor(st.batches, shred);
      Holds(before, s.data) && SizeOfSet(before, s)
    ensures var before := BatchFor(st.batches, shred);
      var after := AddShred(before, shred);
      && Holds(after, s.data) && SizeOfSet(after, s)
      && (forall i: nat :: i < before.numData + before.numCode ==>
        (ShredAt(after, i).Some? <==> ShredAt(before, i).Some? || TargetOf(shred) == Some(i)))
      && (TargetOf(shred).Some? ==> TargetOf(shred).value < before.numData + before.numCode)
  {
    hide Codeword, NewBatch, Deliver, Target, TargetOf, Honest;
    var before := BatchFor(st.batches, shred);
    if IdOf(shred) !in st.batches {
      EmptyBatchHolds(shred.slot, shred.fecSetIndex, s.data, NumCode(shred));
      NewBatchSize(shred.slot, shred.fecSetIndex, 32, NumCode(shred));
    }
    HonestInBatch(shred, s, before.numCode);
    DeliverHolds(before, ShredArrival(shred), s.data);
    var added := Deliver(before, ShredArrival(shred));
    SameShreds(added, AddShred(before, shred).parentSlot, s.data);
  }

  /** The parent slot plays no part in recovery. */
  lemma SameShreds(b: BatchState, parentSlot: nat, data: Matrix)
    requires Holds(b, data)
    ensures Holds(b.(parentSlot := parentSlot), data)
    ensures forall i: nat :: i < b.numData + b.numCode ==> ShredAt(b.(parentSlot := parentSlot), i) == ShredAt(b, i)
  {
    hide Codeword, ShredAt;
    forall i: nat | i < b.numData + b.numCode ensures ShredAt(b.(parentSlot := parentSlot), i) == ShredAt(b, i) {
      SameShredAt(b, parentSlot, i);
    }
  }

  lemma SameShredAt(b: BatchState, parentSlot: nat, i: nat)
    requires b.Valid() && i < b.numData + b.numCode
    ensures ShredAt(b.(parentSlot := parentSlot), i) == ShredAt(b, i)
  {}

  /** A shred honest for its set can always be processed, and it either leaves its set pending or
      recovers exactly the sender's data. */
  lemma HonestShredProcessed(st: PipelineState, s: SenderSet, shred: Shred)
    requires WellFormed(st) && ValidSet(s) && SetPending(st.batches, IdOf(shred), s) && HonestFor(shred, s)
    ensures CanProcess(st, shred)
    ensures var b := AddShred(BatchFor(st.batches, shred), shred);
      RecoveredBy(st, shred) == if ReceivedCount(b) >= 32 then Some(s.data) else None
  {
    hide Codeword, AddShred, BatchFor, TryRecoverSpec, CanRecover, TargetOf, HonestFor;
    BatchAfterShred(st, s, shred);
    var b := AddShred(BatchFor(st.batches, shred), shred);
    SizesRecover(b.numCode);
    RecoversExactly(b, s.data);
  }

  /** For which sets, by the shred that comes first, every recovery is the sender's bytes, for shreds of
      any length but zero: always when it is a code shred, which carries the sizes of the set; after a
      data shred, when the set has 32 data shreds, or too few shreds altogether for a batch of the
      default size. */
  lemma FirstShredDecides(first: Shred, numData: nat, numCode: nat, len: nat)
    requires numData > 0 && len > 0
    requires first.MerkleCode? ==> first.numDataShreds == numData && first.numCodingShreds == numCode
    ensures AlwaysFaithful(numData, numCode, len, NumData(first), NumCode(first)) <==>
      || first.MerkleCode?
      || numData == 32
      || numData + Min(numCode, 32) < 32
  {
    hide AlwaysFaithful;
    SizesRecover(32);
    FaithfulExactly(numData, numCode, len, NumData(first), NumCode(first));
  }

  // ---- What is pending and what is stored ----

  /** The indices of a set that are filled once the shred has arrived. */
  ghost function Filling(open: set<nat>, shred: Shred): set<nat> {
    open + if TargetOf(shred).Some? then {TargetOf(shred).value} else {}
  }

  /** The indices of a set that have arrived since it was last complete. */
  ghost function Open(shreds: seq<Shred>, id: SetId): (open: set<nat>)
    ensures |open| < 32
  {
    if shreds == [] then {}
    else
      var before, shred := Open(shreds[..|shreds| - 1], id), shreds[|shreds| - 1];
      if IdOf(shred) != id then before
      else if |Filling(before, shred)| >= 32 then {}
      else Filling(before, shred)
  }

  /** The shred is the 32nd that its set has waited for. */
  ghost predicate Completes(shreds: seq<Shred>, shred: Shred) {
    |Filling(Open(shreds, IdOf(shred)), shred)| >= 32
  }

  /** The last set of the slot to be complete, of those that deshred. */
  ghost function LastStored(senders: Senders, shreds: seq<Shred>, slot: nat): (r: Option<SetId>)
    ensures r.Some? ==> r.value in senders && r.value.slot == slot && Deshred(Concat(senders[r.value].data)).Some?
  {
    if shreds == [] then None
    else
      var before, shred := shreds[..|shreds| - 1], shreds[|shreds| - 1];
      if StoresSlot(senders, before, shred, slot) then Some(IdOf(shred))
      else LastStored(senders, before, slot)
  }

  ghost predicate StoresSlot(senders: Senders, before: seq<Shred>, shred: Shred, slot: nat) {
    && shred.slot == slot && Completes(before, shred)
    && IdOf(shred) in senders && Deshred(Concat(senders[IdOf(shred)].data)).Some?
  }

  /** The set's batch holds exactly these indices; there is none if there are none. */
  ghost predicate PendingHolds(batches: map<SetId, BatchState>, id: SetId, open: set<nat>) {
    if id in batches then
      && batches[id].Valid()
      && forall i: nat :: i in open <==> i < batches[id].numData + batches[id].numCode && ShredAt(batches[id], i).Some?
    else open == {}
  }

  ghost predicate StoredAs(files: map<nat, Bytes>, senders: Senders, slot: nat, last: Option<SetId>) {
    match last
    case None => slot !in files
    case Some(id) => id in senders && slot in files && files[slot] == Concat(senders[id].data)
  }

  /** The open indices of a set after the shred that fills `filling`. */
  ghost function OpenAfter(filling: set<nat>): set<nat> {
    if |filling| >= 32 then {} else filling
  }

  /** One shred honest for its set, exactly: it recovers the set if it is the 32nd of its open indices,
      and else adds its index to them; and a recovered set that deshreds replaces the file of its slot. */
  lemma StepExactly(h: Hasher, st: PipelineState, s: SenderSet, shred: Shred, open: set<nat>)
    requires WellFormed(st) && ValidSet(s) && SetPending(st.batches, IdOf(shred), s) && HonestFor(shred, s)
    requires PendingHolds(st.batches, IdOf(shred), open)
    ensures CanProcess(st, shred)
    ensures var id, filling, st' := IdOf(shred), Filling(open, shred), Process(h, st, shred);
      var complete := |filling| >= 32;
      && RecoveredBy(st, shred) == (if complete then Some(s.data) else None)
      && PendingHolds(st'.batches, id, OpenAfter(filling)) && SetPending(st'.batches, id, s)
      && st'.files == if complete then FilesAfter(st.files, shred.slot, s.data) else st.files
  {
    hide Codeword, AddShred, BatchFor, TryRecoverSpec, CanRecover, Store, Deshred, Concat, TargetOf,
      PendingHolds, Filling, HonestFor, FilesAfter;
    HonestShredProcessed(st, s, shred);
    BatchAfterShred(st, s, shred);
    BatchWellFormed(st, shred);
    var id, b, filling := IdOf(shred), AddShred(BatchFor(st.batches, shred), shred), Filling(open, shred);
    FilledAfter(st, s, shred, open);
    DeliveredCount(b, filling);
    if ReceivedCount(b) >= 32 {
      StoreFrame(h, st, b, s.data);
      assert PendingHolds(st.batches - {id}, id, {}) by { NoBatch(st.batches, id); }
    } else {
      assert PendingHolds(st.batches[id := b], id, filling) by { OneBatch(st.batches, id, b, filling); }
    }
  }

  lemma NoBatch(batches: map<SetId, BatchState>, id: SetId)
    ensures PendingHolds(batches - {id}, id, {})
  {}

  lemma OneBatch(batches: map<SetId, BatchState>, id: SetId, b: BatchState, open: set<nat>)
    requires b.Valid() && forall i: nat :: i in open <==> i < b.numData + b.numCode && ShredAt(b, i).Some?
    ensures PendingHolds(batches[id := b], id, open)
  {}

  /** The shred's batch, once it has taken the shred in, holds exactly the open indices and the shred's. */
  lemma FilledAfter(st: PipelineState, s: SenderSet, shred: Shred, open: set<nat>)
    requires ValidSet(s) && SetPending(st.batches, IdOf(shred), s) && HonestFor(shred, s)
    requires PendingHolds(st.batches, IdOf(shred), open)
    ensures BatchFor(st.batches, shred).Valid()
    ensures var b := AddShred(BatchFor(st.batches, shred), shred);
      forall i: nat :: i in Filling(open, shred) <==> i < b.numData + b.numCode && ShredAt(b, i).Some?
  {
    hide Codeword, AddShred, BatchFor, TargetOf, PendingHolds, HonestFor, ShredAt;
    BatchAfterShred(st, s, shred);
    OpenBefore(st, shred, open);
  }

  lemma OpenBefore(st: PipelineState, shred: Shred, open: set<nat>)
    requires PendingHolds(st.batches, IdOf(shred), open) && BatchFor(st.batches, shred).Valid()
    ensures var b := BatchFor(st.batches, shred);
      forall i: nat :: i in open <==> i < b.numData + b.numCode && ShredAt(b, i).Some?
  {
    hide NewBatch, ShredAt;
    if IdOf(shred) !in st.batches {
      NewBatchSize(shred.slot, shred.fecSetIndex, NumData(shred), NumCode(shred));
    }
  }

  // ---- Runs in which one set is honest ----

  /** The shreds of the set are honest. All others may carry anything. */
  ghost predicate SetHonest(shreds: seq<Shred>, id: SetId, s: SenderSet)
    requires ValidSet(s)
  {
    forall k :: 0 <= k < |shreds| && IdOf(shreds[k]) == id ==> HonestFor(shreds[k], s)
  }

  lemma OtherBatches(batches: map<SetId, BatchState>, batches': map<SetId, BatchState>,
    id: SetId, other: SetId, s: SenderSet, open: set<nat>)
    requires batches' - {id} == batches - {id} && other != id
    requires PendingHolds(batches, other, open) && SetPending(batches, other, s)
    ensures PendingHolds(batches', other, open) && SetPending(batches', other, s)
  {
    hide Pending;
    assert other in batches - {id} <==> other in batches' - {id};
    assert other in batches ==> (batches - {id})[other] == (batches' - {id})[other];
  }

  lemma NothingPending(id: SetId)
    ensures PendingHolds(map[], id, Open([], id))
  {}

  /** Foreign shreds cannot corrupt a set: whatever else arrives, its batch holds its sender's shreds
      at exactly the indices that arrived since the set was last complete. */
  lemma {:induction false} RunTracksSet(h: Hasher, capacity: nat, shreds: seq<Shred>, id: SetId, s: SenderSet)
    requires capacity > 0 && ValidSet(s) && SetHonest(shreds, id, s)
    ensures var st := RunFrom(h, capacity, shreds);
      SetPending(st.batches, id, s) && PendingHolds(st.batches, id, Open(shreds, id))
    decreases |shreds|
  {
    hide Process, CanProcess, RecoveredBy, WellFormed, HonestFor, PendingHolds, Filling, Pending;
    if shreds == [] {
      NothingPending(id);
    } else {
      var before, shred := shreds[..|shreds| - 1], shreds[|shreds| - 1];
      var st := RunFrom(h, capacity, before);
      RunWellFormed(h, capacity, before);
      RunTracksSet(h, capacity, before, id, s);
      if IdOf(shred) == id {
        StepExactly(h, st, s, shred, Open(before, id));
      } else if CanProcess(st, shred) {
        StepKeepsOthers(h, st, shred);
        OtherBatches(st.batches, Process(h, st, shred).batches, IdOf(shred), id, s, Open(before, id));
      }
    }
  }

  /** A shred of such a set recovers exactly when it completes the set, and then the sender's data; if
      the data deshreds, it becomes the file of its slot, and otherwise no file changes. */
  lemma CompletionRecovers(h: Hasher, capacity: nat, shreds: seq<Shred>, s: SenderSet, shred: Shred)
    requires capacity > 0 && ValidSet(s) && SetHonest(shreds, IdOf(shred), s) && HonestFor(shred, s)
    ensures var st := RunFrom(h, capacity, shreds);
      && CanProcess(st, shred)
      && RecoveredBy(st, shred) == (if Completes(shreds, shred) then Some(s.data) else None)
      && Process(h, st, shred).files ==
        if Completes(shreds, shred) then FilesAfter(st.files, shred.slot, s.data) else st.files
  {
    hide CanProcess, RecoveredBy, Process, WellFormed, HonestFor, PendingHolds, SetPending, Filling, Open,
      FilesAfter;
    RunWellFormed(h, capacity, shreds);
    RunTracksSet(h, capacity, shreds, IdOf(shred), s);
    StepExactly(h, RunFrom(h, capacity, shreds), s, shred, Open(shreds, IdOf(shred)));
  }

  // ---- Runs in which the sets of one slot are honest ----

  ghost predicate SlotHonest(shreds: seq<Shred>, senders: Senders, slot: nat)
    requires ValidSenders(senders)
  {
    forall k :: 0 <= k < |shreds| && shreds[k].slot == slot ==> HonestShred(shreds[k], senders)
  }

  lemma SetOfHonestSlot(shreds: seq<Shred>, senders: Senders, id: SetId)
    requires ValidSenders(senders) && SlotHonest(shreds, senders, id.slot) && id in senders
    ensures SetHonest(shreds, id, senders[id])
  {
    hide HonestFor;
  }

  /** The slot's file is the data of the last of its sets to be complete, of those that deshred. */
  lemma {:induction false} RunTracksSlot(h: Hasher, capacity: nat, senders: Senders, shreds: seq<Shred>, slot: nat)
    requires capacity > 0 && ValidSenders(senders) && SlotHonest(shreds, senders, slot)
    ensures StoredAs(RunFrom(h, capacity, shreds).files, senders, slot, LastStored(senders, shreds, slot))
    decreases |shreds|
  {
    hide Process, CanProcess, RecoveredBy, WellFormed, HonestFor, Deshred, Concat, Completes, Open;
    if shreds != [] {
      var before, shred := shreds[..|shreds| - 1], shreds[|shreds| - 1];
      var st := RunFrom(h, capacity, before);
      RunWellFormed(h, capacity, before);
      RunTracksSlot(h, capacity, senders, before, slot);
      if shred.slot == slot {
        SetOfHonestSlot(before, senders, IdOf(shred));
        CompletionRecovers(h, capacity, before, senders[IdOf(shred)], shred);
      } else if CanProcess(st, shred) {
        StepKeepsOthers(h, st, shred);
        OtherFiles(st.files, Process(h, st, shred).files, shred.slot, slot);
      }
    }
  }

  lemma OtherFiles(files: map<nat, Bytes>, files': map<nat, Bytes>, slot: nat, other: nat)
    requires files' - {slot} == files - {slot} && other != slot
    ensures other in files' <==> other in files
    ensures other in files ==> files'[other] == files[other]
  {
    assert other in files - {slot} <==> other in files' - {slot};
    assert other in files ==> (files - {slot})[other] == (files' - {slot})[other];
  }

  /** What the node serves of such a slot: nothing when no set of the slot has been complete and
      deshreds, and otherwise the transactions of the last one, with their tree. */
  lemma ServedExactly(h: Hasher, capacity: nat, senders: Senders, shreds: seq<Shred>, slot: nat)
    requires capacity > 0 && ValidSenders(senders) && SlotHonest(shreds, senders, slot)
    ensures var st := RunFrom(h, capacity, shreds);
      LoadSlot(h, st, slot) ==
        match LastStored(senders, shreds, slot)
        case None => None
        case Some(id) => Served(h, Concat(senders[id].data), GetFrom(st.ring, slot).Some?)
  {
    hide LoadSlot, Served, Deshred, Concat, RunFrom, LastStored, HonestShred;
    ServedFromFiles(h, capacity, shreds, slot);
    RunTracksSlot(h, capacity, senders, shreds, slot);
  }

  // ---- Runs in which everything is honest ----

  ghost predicate AllHonest(shreds: seq<Shred>, senders: Senders)
    requires ValidSenders(senders)
  {
    forall k :: 0 <= k < |shreds| ==> HonestShred(shreds[k], senders)
  }

  /** The whole state of a run, in terms of the arrivals and the senders' data alone: the batch of
      every set holds exactly its open indices, and every slot's file is the data of the last of its
      sets to be complete, of those that deshred. */
  ghost predicate Tracks(st: PipelineState, senders: Senders, shreds: seq<Shred>) {
    && (forall id :: id in senders ==> PendingHolds(st.batches, id, Open(shreds, id)))
    && (forall slot: nat :: StoredAs(st.files, senders, slot, LastStored(senders, shreds, slot)))
  }

  lemma RunTracks(h: Hasher, capacity: nat, senders: Senders, shreds: seq<Shred>)
    requires capacity > 0 && ValidSenders(senders) && AllHonest(shreds, senders)
    ensures Tracks(RunFrom(h, capacity, shreds), senders, shreds)
  {
    hide RunFrom, HonestFor, PendingHolds, StoredAs, Open, LastStored;
    var st := RunFrom(h, capacity, shreds);
    forall id | id in senders ensures PendingHolds(st.batches, id, Open(shreds, id)) {
      RunTracksSet(h, capacity, shreds, id, senders[id]);
    }
    forall slot: nat ensures StoredAs(st.files, senders, slot, LastStored(senders, shreds, slot)) {
      RunTracksSlot(h, capacity, senders, shreds, slot);
    }
  }

  /** The file is the data of one of the sets of its slot. */
  ghost predicate FromSomeSet(senders: Senders, slot: nat, file: Bytes) {
    exists id :: id in senders && id.slot == slot && file == Concat(senders[id].data)
  }

  /** Every pending batch is its sender's, and every file is the data of one of its slot's sets. */
  ghost predicate Inv(st: PipelineState, senders: Senders) {
    && WellFormed(st)
    && (forall id :: id in st.batches ==> id in senders && Pending(st.batches[id], senders[id]))
    && (forall slot :: slot in st.files ==> FromSomeSet(senders, slot, st.files[slot]))
  }

  /** One honest shred does not stop the program and keeps the invariant. */
  lemma StepKeepsInv(h: Hasher, st: PipelineState, senders: Senders, shred: Shred)
    requires ValidSenders(senders) && Inv(st, senders) && HonestShred(shred, senders)
    ensures CanProcess(st, shred) && Inv(Process(h, st, shred), senders)
  {
    hide Codeword, AddShred, BatchFor, TryRecoverSpec, CanRecover, Store, FromSomeSet, Deshred, Concat,
      TargetOf, HonestFor;
    var id := IdOf(shred);
    var s := senders[id];
    HonestShredProcessed(st, s, shred);
    BatchAfterShred(st, s, shred);
    BatchWellFormed(st, shred);
    var b := AddShred(BatchFor(st.batches, shred), shred);
    if ReceivedCount(b) >= 32 {
      StoreFrame(h, st, b, s.data);
      assert FromSomeSet(senders, shred.slot, Concat(s.data)) by { FileFromSet(senders, id); }
    } else {
      assert Pending(b, s);
    }
  }

  lemma FileFromSet(senders: Senders, id: SetId)
    requires id in senders
    ensures FromSomeSet(senders, id.slot, Concat(senders[id].data))
  {}

  /** Whole-pipeline safety: after any interleaving of honest shreds of any number of sets and slots,
      with loss, duplication and re-delivery after recovery, nothing has stopped the program, every
      pending batch is its sender's, and every file is the data of one of its slot's sets. */
  lemma {:induction false} RunKeepsInv(h: Hasher, capacity: nat, senders: Senders, shreds: seq<Shred>)
    requires capacity > 0 && ValidSenders(senders) && AllHonest(shreds, senders)
    ensures Processable(h, capacity, shreds) && Inv(RunFrom(h, capacity, shreds), senders)
    decreases |shreds|
  {
    hide Inv, Process, CanProcess, HonestShred;
    if shreds == [] {
      assert Inv(Init(capacity), senders) by { InitInv(capacity, senders); }
    } else {
      RunKeepsInv(h, capacity, senders, shreds[..|shreds| - 1]);
      StepKeepsInv(h, RunFrom(h, capacity, shreds[..|shreds| - 1]), senders, shreds[|shreds| - 1]);
    }
  }

  lemma InitInv(capacity: nat, senders: Senders)
    requires capacity > 0
    ensures Inv(Init(capacity), senders)
  {}
}
