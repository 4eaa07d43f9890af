/** The parent slot that a pending batch and a cached block carry, over every run. */
module ParentSlots {
  import opened Arithmetic
  import opened FecBatches
  import opened Deshredder
  import opened Merkle
  import opened RingBuffers
  import opened Pipeline
  import opened PipelineSafety

  /** The shreds of a set that its batch has taken in since it was opened. */
  ghost function Taken(h: Hasher, capacity: nat, shreds: seq<Shred>, id: SetId): seq<Shred> {
    if shreds == [] then []
    else
      var before, shred := shreds[..|shreds| - 1], shreds[|shreds| - 1];
      var st, taken := RunFrom(h, capacity, before), Taken(h, capacity, before, id);
      if IdOf(shred) != id || !CanProcess(st, shred) then taken
      else if RecoveredBy(st, shred).Some? then []
      else taken + [shred]
  }

  /** No data shred of the slot names a parent above slot zero. */
  ghost predicate NamesNone(taken: seq<Shred>, slot: nat) {
    forall k :: 0 <= k < |taken| && taken[k].MerkleData? ==> taken[k].parentOffset >= slot
  }

  /** The `i`-th shred is the first that does, and the parent is its offset before the slot. */
  ghost predicate FirstNames(taken: seq<Shred>, slot: nat, i: nat, parent: nat) {
    && i < |taken| && taken[i].MerkleData? && parent > 0 && parent + taken[i].parentOffset == slot
    && NamesNone(taken[..i], slot)
  }

  /** The parent that the first data shred names whose offset stays above slot zero, and zero if there is
      none. */
  ghost predicate IsParent(parent: nat, slot: nat, taken: seq<Shred>) {
    (parent == 0 && NamesNone(taken, slot)) || exists i: nat :: FirstNames(taken, slot, i, parent)
  }

  lemma ParentOfNone(slot: nat)
    ensures IsParent(0, slot, [])
  {}

  lemma DeliverKeepsParent(b: BatchState, a: Arrival)
    requires b.Valid()
    ensures Deliver(b, a).parentSlot == b.parentSlot
  {}

  lemma ParentAfter(b: BatchState, shred: Shred, taken: seq<Shred>)
    requires b.Valid() && IsParent(b.parentSlot, shred.slot, taken)
    ensures IsParent(AddShred(b, shred).parentSlot, shred.slot, taken + [shred])
  {
    hide Deliver, ShredArrival;
    var parent, slot, more := AddShred(b, shred).parentSlot, shred.slot, taken + [shred];
    DeliverKeepsParent(b, ShredArrival(shred));
    if b.parentSlot > 0 {
      var i: nat :| FirstNames(taken, slot, i, b.parentSlot);
      assert more[..i] == taken[..i];
      assert FirstNames(more, slot, i, parent);
    } else if parent > 0 {
      assert more[..|taken|] == taken;
      assert FirstNames(more, slot, |taken|, parent);
    }
  }

  /** After every run a set's batch carries the parent that the shreds it has taken in name. */
  lemma {:induction false} BatchParent(h: Hasher, capacity: nat, shreds: seq<Shred>, id: SetId)
    requires capacity > 0
    ensures var st, taken := RunFrom(h, capacity, shreds), Taken(h, capacity, shreds, id);
      if id in st.batches then IsParent(st.batches[id].parentSlot, id.slot, taken) else taken == []
    decreases |shreds|
  {
    hide CanProcess, RecoveredBy, IsParent, WellFormed;
    if shreds != [] {
      var before, shred := shreds[..|shreds| - 1], shreds[|shreds| - 1];
      var st := RunFrom(h, capacity, before);
      BatchParent(h, capacity, before, id);
      RunWellFormed(h, capacity, before);
      if CanProcess(st, shred) {
        StepKeepsOthers(h, st, shred);
        if IdOf(shred) == id {
          AddedParent(h, st, shred, Taken(h, capacity, before, id));
          StepBatch(h, st, shred);
        } else {
          OneBatchKept(st.batches, Process(h, st, shred).batches, IdOf(shred), id);
        }
      }
    }
  }

  lemma OneBatchKept(batches: map<SetId, BatchState>, batches': map<SetId, BatchState>, id: SetId, other: SetId)
    requires batches' - {id} == batches - {id} && other != id
    ensures other in batches' <==> other in batches
    ensures other in batches ==> batches'[other] == batches[other]
  {
    assert other in batches - {id} <==> other in batches' - {id};
    assert other in batches ==> (batches - {id})[other] == (batches' - {id})[other];
  }

  /** A recovered batch is gone, any other holds the shred. */
  lemma StepBatch(h: Hasher, st: PipelineState, shred: Shred)
    requires WellFormed(st) && CanProcess(st, shred)
    ensures BatchFor(st.batches, shred).Valid()
    ensures var id, batches := IdOf(shred), Process(h, st, shred).batches;
      if RecoveredBy(st, shred).Some? then id !in batches
      else id in batches && batches[id] == AddShred(BatchFor(st.batches, shred), shred)
  {
    hide CanProcess, RecoveredBy, Store, AddShred, BatchFor;
    ShredsBatchValid(st, shred);
  }

  lemma AddedParent(h: Hasher, st: PipelineState, shred: Shred, taken: seq<Shred>)
    requires WellFormed(st) && CanProcess(st, shred)
    requires if IdOf(shred) in st.batches then IsParent(st.batches[IdOf(shred)].parentSlot, shred.slot, taken)
      else taken == []
    ensures BatchFor(st.batches, shred).Valid()
    ensures IsParent(AddShred(BatchFor(st.batches, shred), shred).parentSlot, shred.slot, taken + [shred])
  {
    hide CanProcess, AddShred, IsParent;
    ShredsBatchValid(st, shred);
    ParentOfNone(shred.slot);
    ParentAfter(BatchFor(st.batches, shred), shred, taken);
  }

  /** The block that a shred makes the receive path store carries the parent named by the shreds from
      which it was recovered. */
  lemma StoredParent(h: Hasher, capacity: nat, before: seq<Shred>, shred: Shred, d: SlotData)
    requires capacity > 0 && StoredBy(h, RunFrom(h, capacity, before), shred) == [d]
    ensures d.slot == shred.slot
    ensures IsParent(d.parentSlot, shred.slot, Taken(h, capacity, before, IdOf(shred)) + [shred])
  {
    hide CanProcess, RecoveredBy, Deshred, Concat, Build, AddShred, BatchFor, IsParent, RunFrom, WellFormed;
    var st := RunFrom(h, capacity, before);
    RunWellFormed(h, capacity, before);
    BatchParent(h, capacity, before, IdOf(shred));
    AddedParent(h, st, shred, Taken(h, capacity, before, IdOf(shred)));
    BatchWellFormed(st, shred);
  }

  /** The shred at `n` stored the block. */
  ghost predicate StoredAt(h: Hasher, capacity: nat, shreds: seq<Shred>, n: nat, d: SlotData) {
    n < |shreds| && StoredBy(h, RunFrom(h, capacity, shreds[..n]), shreds[n]) == [d]
  }

  lemma StoresOne(h: Hasher, st: PipelineState, shred: Shred, d: SlotData)
    requires d in StoredBy(h, st, shred)
    ensures StoredBy(h, st, shred) == [d]
  {
    hide Deshred, Concat, CanProcess, RecoveredBy, AddShred, BatchFor, BlockOf;
  }

  lemma {:induction false} EveryBlockStored(h: Hasher, capacity: nat, shreds: seq<Shred>, d: SlotData) returns (n: nat)
    requires d in StoredBlocks(h, capacity, shreds)
    ensures StoredAt(h, capacity, shreds, n, d)
    decreases |shreds|
  {
    hide StoredBy, RunFrom;
    var before := shreds[..|shreds| - 1];
    if d in StoredBlocks(h, capacity, before) {
      n := EveryBlockStored(h, capacity, before, d);
      StoredEarlier(h, capacity, shreds, n, d);
    } else {
      n := |shreds| - 1;
      StoresOne(h, RunFrom(h, capacity, before), shreds[n], d);
    }
  }

  lemma StoredEarlier(h: Hasher, capacity: nat, shreds: seq<Shred>, n: nat, d: SlotData)
    requires |shreds| > 0 && StoredAt(h, capacity, shreds[..|shreds| - 1], n, d)
    ensures StoredAt(h, capacity, shreds, n, d)
  {
    hide StoredBy, RunFrom;
    assert shreds[..|shreds| - 1][..n] == shreds[..n];
  }

  lemma {:induction false} LatestPutIsPut(puts: seq<SlotData>, slot: nat)
    ensures LatestPut(puts, slot).Some? ==> LatestPut(puts, slot).value in puts
  {
    if puts != [] { LatestPutIsPut(puts[..|puts| - 1], slot); }
  }

  /** Every cached block was stored by some shred of its slot, and carries the parent named by the shreds
      from which it was recovered. */
  lemma CachedParent(h: Hasher, capacity: nat, shreds: seq<Shred>, slot: nat) returns (n: nat)
    requires 0 < capacity < TWO_64 && GetFrom(RunFrom(h, capacity, shreds).ring, slot).Some?
    ensures var d := GetFrom(RunFrom(h, capacity, shreds).ring, slot).value;
      && StoredAt(h, capacity, shreds, n, d) && shreds[n].slot == slot
      && IsParent(d.parentSlot, slot, Taken(h, capacity, shreds[..n], IdOf(shreds[n])) + [shreds[n]])
  {
    hide RunFrom, GetFrom, StoredBlocks, StoredBy, IsParent, LatestPut, PutAll;
    var d, blocks := GetFrom(RunFrom(h, capacity, shreds).ring, slot).value, StoredBlocks(h, capacity, shreds);
    RingOfRun(h, capacity, shreds);
    RingRefinesMap(capacity, blocks, slot);
    LatestPutIsPut(blocks, slot);
    n := EveryBlockStored(h, capacity, shreds, d);
    StoredParent(h, capacity, shreds[..n], shreds[n], d);
    assert d.slot == slot by { LatestAtIsLatestPut(blocks, capacity, slot); }
  }

  ghost predicate OneOffset(taken: seq<Shred>, offset: nat) {
    forall k :: 0 <= k < |taken| && taken[k].MerkleData? ==> taken[k].parentOffset == offset
  }

  /** When all data shreds carry one offset that stays within the slots, the parent is that far before
      the slot, or zero if there was no data shred. */
  lemma ParentOfOneOffset(parent: nat, slot: nat, taken: seq<Shred>, offset: nat)
    requires IsParent(parent, slot, taken) && OneOffset(taken, offset) && offset <= slot
    ensures if exists k :: 0 <= k < |taken| && taken[k].MerkleData? then parent + offset == slot else parent == 0
  {}

  lemma {:induction false} TakenOneOffset(h: Hasher, capacity: nat, shreds: seq<Shred>, id: SetId, offset: nat)
    requires forall k :: 0 <= k < |shreds| && shreds[k].slot == id.slot && shreds[k].MerkleData? ==>
      shreds[k].parentOffset == offset
    ensures OneOffset(Taken(h, capacity, shreds, id), offset)
    decreases |shreds|
  {
    hide CanProcess, RecoveredBy, RunFrom;
    if shreds != [] {
      TakenOneOffset(h, capacity, shreds[..|shreds| - 1], id, offset);
    }
  }

  /** For a slot whose data shreds all carry one offset: its cached block has the slot that far before
      it as its parent, or zero if it was recovered from code shreds alone. */
  lemma ParentServed(h: Hasher, capacity: nat, shreds: seq<Shred>, slot: nat, offset: nat) returns (n: nat)
    requires 0 < capacity < TWO_64 && GetFrom(RunFrom(h, capacity, shreds).ring, slot).Some? && offset <= slot
    requires forall k :: 0 <= k < |shreds| && shreds[k].slot == slot && shreds[k].MerkleData? ==>
      shreds[k].parentOffset == offset
    ensures n < |shreds| && shreds[n].slot == slot
    ensures var d := GetFrom(RunFrom(h, capacity, shreds).ring, slot).value;
      var from := Taken(h, capacity, shreds[..n], IdOf(shreds[n])) + [shreds[n]];
      && StoredAt(h, capacity, shreds, n, d)
      && if exists k :: 0 <= k < |from| && from[k].MerkleData? then d.parentSlot + offset == slot
         else d.parentSlot == 0
  {
    hide RunFrom, GetFrom, StoredAt, Taken, IsParent;
    n := CachedParent(h, capacity, shreds, slot);
    var d := GetFrom(RunFrom(h, capacity, shreds).ring, slot).value;
    StoredWithin(h, capacity, shreds, n, d);
    var from := Taken(h, capacity, shreds[..n], IdOf(shreds[n])) + [shreds[n]];
    TakenOneOffset(h, capacity, shreds[..n], IdOf(shreds[n]), offset);
    ParentOfOneOffset(d.parentSlot, slot, from, offset);
  }

  lemma StoredWithin(h: Hasher, capacity: nat, shreds: seq<Shred>, n: nat, d: SlotData)
    requires StoredAt(h, capacity, shreds, n, d)
    ensures n < |shreds|
  {}
}
