/** The receive path: `process_shred` of `main.rs` and `load_slot_data` of `rpc_server.rs`, over the
    batches, the hot ring and the files on disk. */
module Pipeline {
  import opened Options
  import opened Arithmetic
  import opened Gf256
  import opened LinearAlgebra
  import opened ReedSolomon
  import opened FecBatches
  import opened Deshredder
  import opened Merkle
  import opened RingBuffers

  /** A parsed shred: the fields `process_shred` reads. */
  datatype Shred =
    | MerkleData(slot: nat, fecSetIndex: nat, index: nat, parentOffset: nat, data: Bytes)
    | MerkleCode(slot: nat, fecSetIndex: nat, numDataShreds: nat, numCodingShreds: nat, position: nat, code: Bytes)

  datatype SetId = SetId(slot: nat, fecSetIndex: nat)

  function IdOf(shred: Shred): SetId {
    SetId(shred.slot, shred.fecSetIndex)
  }

  function NumData(shred: Shred): nat {
    if shred.MerkleCode? then shred.numDataShreds else NUM_DATA_SHREDS
  }

  function NumCode(shred: Shred): nat {
    if shred.MerkleCode? then shred.numCodingShreds else NUM_CODE_SHREDS
  }

  /** `index - fec_set_index` in 32 bits: the index of an earlier shred wraps to one far behind the set. */
  function DataIndex(shred: Shred): (k: nat)
    requires shred.MerkleData?
    ensures k < 0x1_0000_0000 && (shred.fecSetIndex + k) % 0x1_0000_0000 == shred.index % 0x1_0000_0000
  {
    (shred.index - shred.fecSetIndex) % 0x1_0000_0000
  }

  /** `slot.saturating_sub(parent_offset)` */
  function ParentSlot(shred: Shred): nat
    requires shred.MerkleData?
  {
    if shred.slot >= shred.parentOffset then shred.slot - shred.parentOffset else 0
  }

  /** All that the receive path stores. Files are the block bytes by slot. */
  datatype PipelineState = PipelineState(batches: map<SetId, BatchState>, ring: Ring, files: map<nat, Bytes>)

  // ---- One step ----

  ghost function BatchFor(batches: map<SetId, BatchState>, shred: Shred): BatchState {
    if IdOf(shred) in batches then batches[IdOf(shred)]
    else NewBatch(shred.slot, shred.fecSetIndex, NumData(shred), NumCode(shred))
  }

  ghost function ShredArrival(shred: Shred): Arrival {
    match shred
    case MerkleData(_, _, _, _, data) => DataArrival(DataIndex(shred), data)
    case MerkleCode(_, _, _, _, position, code) => CodeArrival(position, code)
  }

  /** The batch after it has taken the shred in. */
  ghost function AddShred(b: BatchState, shred: Shred): (b': BatchState)
    requires b.Valid()
    ensures b'.Valid() && b'.numData == b.numData && b'.numCode == b.numCode
  {
    var added := Deliver(b, ShredArrival(shred));
    if shred.MerkleData? && added.parentSlot == 0 then added.(parentSlot := ParentSlot(shred)) else added
  }

  function BlockOf(h: Hasher, slot: nat, parentSlot: nat, result: DeshredResult): SlotData {
    var tree := Build(h, result.transactions);
    SlotData(slot, parentSlot, result.entries, |result.transactions|, Some(tree.root), Some(tree))
  }

  /** The batches are well-formed, and recovering the shred's batch, with the shred added, does not
      stop the program. */
  ghost predicate CanProcess(st: PipelineState, shred: Shred) {
    && (forall id :: id in st.batches ==> st.batches[id].Valid())
    && |st.ring.slots| > 0
    && CanRecover(AddShred(BatchFor(st.batches, shred), shred))
  }

  ghost function RecoveredBy(st: PipelineState, shred: Shred): Option<Matrix>
    requires CanProcess(st, shred)
  {
    TryRecoverSpec(AddShred(BatchFor(st.batches, shred), shred))
  }

  /** A recovered set is stored in the ring and on disk when it deshreds. */
  ghost function Store(h: Hasher, st: PipelineState, b: BatchState, recovered: Matrix): PipelineState
    requires |st.ring.slots| > 0
  {
    match Deshred(Concat(recovered))
    case None => st
    case Some(result) =>
      st.(ring := PutIn(st.ring, BlockOf(h, b.slot, b.parentSlot, result)),
          files := st.files[b.slot := Concat(recovered)])
  }

  ghost function Process(h: Hasher, st: PipelineState, shred: Shred): PipelineState
    requires CanProcess(st, shred)
  {
    var id, b := IdOf(shred), AddShred(BatchFor(st.batches, shred), shred);
    match RecoveredBy(st, shred)
    case None => st.(batches := st.batches[id := b])
    case Some(recovered) => Store(h, st, b, recovered).(batches := st.batches - {id})
  }

  /** What the disk alone answers for a slot. */
  ghost function LoadFromDisk(h: Hasher, files: map<nat, Bytes>, slot: nat): Option<(seq<Bytes>, MerkleTree)> {
    if slot !in files then None
    else
      match Deshred(Concat([files[slot]]))
      case None => None
      case Some(result) => Some((result.transactions, Build(h, result.transactions)))
  }

  ghost function LoadSlot(h: Hasher, st: PipelineState, slot: nat): Option<(seq<Bytes>, MerkleTree)>
  {
    match GetFrom(st.ring, slot)
    case Some(d) =>
      if d.numTransactions == 0 || d.merkleTree.None? then None
      else Some((Flatten(d.entries), d.merkleTree.value))
    case None => LoadFromDisk(h, st.files, slot)
  }

  /** Storing does not depend on the batches, and the recovered batch itself is discarded. */
  lemma StoreThenDiscard(h: Hasher, st: PipelineState, id: SetId, b: BatchState, recovered: Matrix)
    requires |st.ring.slots| > 0
    ensures var st' := Store(h, st.(batches := st.batches[id := b]), b, recovered);
      st'.(batches := st'.batches - {id}) == Store(h, st, b, recovered).(batches := st.batches - {id})
  {
    hide Deshred, PutIn, BlockOf;
    assert st.batches[id := b] - {id} == st.batches - {id};
  }

  // ---- The objects ----

  class Receiver {
    const h: Hasher
    var batches: map<SetId, FecBatch>
    const ring: SlotRingBuffer
    var files: map<nat, Bytes>

    ghost predicate Valid()
      reads this, ring, ring.slots, batches.Values
    {
      && ring.Valid() && ring.slots.Length > 0
      && (forall id :: id in batches ==> batches[id].Valid())
      && (forall id, id' :: id in batches && id' in batches && id != id' ==> batches[id] != batches[id'])
    }

    ghost function BatchStates(): map<SetId, BatchState>
      reads this, batches.Values
    {
      map id | id in batches :: batches[id].State()
    }

    ghost function State(): PipelineState
      reads this, ring, ring.slots, batches.Values
    {
      PipelineState(BatchStates(), ring.State(), files)
    }

    constructor (h: Hasher, capacity: nat)
      requires 0 < capacity < TWO_64
      ensures Valid() && State() == PipelineState(map[], NewRing(capacity), map[])
      ensures Filed() && this.h == h && batches == map[] && fresh(ring) && fresh(ring.slots)
    {
      this.h := h;
      batches := map[];
      ring := new SlotRingBuffer(capacity);
      files := map[];
    }

    /** Every batch carries the slot it is filed under. */
    ghost predicate Filed()
      reads this, batches.Values
    {
      forall id :: id in batches ==> batches[id].slot == id.slot
    }

    /** Finds the shred's batch, or starts one (`entry(..).or_insert_with(..)`). */
    method EnsureBatch(shred: Shred) returns (batch: FecBatch)
      requires Valid() && Filed()
      modifies this`batches
      ensures Valid() && Filed() && IdOf(shred) in batches && batches[IdOf(shred)] == batch
      ensures fresh(batch) || (IdOf(shred) in old(batches) && batch == old(batches)[IdOf(shred)])
      ensures IdOf(shred) !in old(batches) && shred.MerkleData? ==> batch.numData == 32 && batch.numCode == 32
      ensures IdOf(shred) !in old(batches) && shred.MerkleCode? ==>
        batch.numData == shred.numDataShreds && batch.numCode == shred.numCodingShreds
      ensures batch.State() == BatchFor(old(BatchStates()), shred)
      ensures forall id :: id in batches && id != IdOf(shred) ==> id in old(batches) && batches[id] == old(batches)[id]
      ensures State() == old(State()).(batches := old(State()).batches[IdOf(shred) := batch.State()])
    {
      var id := IdOf(shred);
      if id in batches {
        batch := batches[id];
        assert BatchStates() == old(BatchStates())[id := batch.State()];
      } else {
        batch := new FecBatch(id.slot, id.fecSetIndex, NumData(shred), NumCode(shred));
        Insert(id, batch);
      }
    }

    method Insert(id: SetId, batch: FecBatch)
      requires Valid() && Filed() && batch.Valid() && batch.slot == id.slot
      requires forall id' :: id' in batches ==> batches[id'] != batch
      modifies this`batches
      ensures Valid() && Filed() && batches == old(batches)[id := batch]
      ensures State() == old(State()).(batches := old(State()).batches[id := batch.State()])
    {
      batches := batches[id := batch];
      assert BatchStates() == old(BatchStates())[id := batch.State()];
    }

    /** Adds the shred to its batch. */
    method AddToBatch(batch: FecBatch, shred: Shred)
      requires batch.Valid()
      modifies batch
      ensures batch.Valid() && batch.State() == AddShred(old(batch.State()), shred)
      ensures shred.MerkleCode? || old(batch.parentSlot) > 0 ==> batch.parentSlot == old(batch.parentSlot)
      ensures shred.MerkleData? && old(batch.parentSlot) == 0 ==>
        if shred.parentOffset <= shred.slot then batch.parentSlot + shred.parentOffset == shred.slot
        else batch.parentSlot == 0
    {
      match shred {
        case MerkleData(_, _, _, _, data) =>
          var added := batch.AddDataShred(DataIndex(shred), data);
          if batch.parentSlot == 0 {
            batch.parentSlot := ParentSlot(shred);
          }
        case MerkleCode(_, _, _, _, position, code) =>
          var added := batch.AddCodeShred(position, code);
      }
    }

    /** Takes the shred into its batch, which is created if there is none. */
    method TakeIn(shred: Shred) returns (batch: FecBatch)
      requires Valid() && Filed()
      modifies this`batches, batches.Values
      ensures Valid() && Filed() && batch.Valid() && batch.slot == shred.slot
      ensures batch.State() == AddShred(BatchFor(old(State()).batches, shred), shred)
      ensures State() == old(State()).(batches := old(State()).batches[IdOf(shred) := batch.State()])
      ensures forall b :: b in batches.Values ==> b in old(batches).Values || fresh(b)
    {
      hide AddShred, BatchFor, Valid, Filed, BatchStates;
      batch := EnsureBatch(shred);
      label added:
      assert batch.Valid() && batch.slot == shred.slot by { ValidAt(IdOf(shred)); }
      AddToBatch(batch, shred);
      OthersKept@added(IdOf(shred));
    }

    lemma ValidAt(id: SetId)
      requires Valid() && Filed() && id in batches
      ensures batches[id].Valid() && batches[id].slot == id.slot
    {}

    /** Changing one batch leaves everything else. */
    twostate lemma OthersKept(id: SetId)
      requires old(Valid()) && old(Filed()) && id in batches && batches == old(batches) && files == old(files)
      requires batches[id].Valid() && unchanged(ring) && unchanged(ring.slots)
      requires forall id' :: id' in batches && batches[id'] != batches[id] ==> unchanged(batches[id'])
      ensures Valid() && Filed()
      ensures State() == old(State()).(batches := old(State()).batches[id := batches[id].State()])
    {
      assert BatchStates() == old(BatchStates())[id := batches[id].State()];
    }

    /** Stores a recovered set in the ring and on disk. */
    method StoreRecovered(slot: nat, parentSlot: nat, recovered: Matrix, ghost b: BatchState)
      requires Valid() && Filed()
      requires b.slot == slot && b.parentSlot == parentSlot
      modifies ring, ring.slots, this`files
      ensures Valid() && Filed() && State() == Store(h, old(State()), b, recovered)
    {
      hide Deshred, Build, PutIn, Concat, Valid, Filed, BatchStates;
      RingValid();
      var result := DeshredIntoTxs(recovered);
      if result.Some? {
        var tree := NewTree(h, result.value.transactions);
        var slotData := SlotData(
          slot, parentSlot, result.value.entries, |result.value.transactions|, Some(tree.root), Some(tree));
        ring.Put(slotData);
        var concat := ConcatPayloads(recovered);
        files := files[slot := concat];
        BatchesKept();
      }
    }

    lemma RingValid()
      requires Valid()
      ensures ring.Valid() && ring.slots.Length > 0
    {}

    /** Storing a block does not touch the batches. */
    twostate lemma BatchesKept()
      requires old(Valid()) && old(Filed()) && batches == old(batches)
      requires ring.Valid() && forall id :: id in batches ==> unchanged(batches[id])
      ensures Valid() && Filed() && BatchStates() == old(BatchStates())
    {}

    /** `batches.remove(..)` */
    method Discard(id: SetId)
      requires Valid() && Filed()
      modifies this`batches
      ensures Valid() && Filed() && State() == old(State()).(batches := old(State()).batches - {id})
      ensures batches.Values <= old(batches).Values
    {
      batches := batches - {id};
      assert BatchStates() == old(BatchStates()) - {id};
    }

    method ProcessShred(shred: Shred)
      requires Valid() && Filed() && CanProcess(State(), shred)
      modifies this, ring, ring.slots, batches.Values
      ensures Valid() && Filed() && State() == Process(h, old(State()), shred)
      ensures forall b :: b in batches.Values ==> b in old(batches).Values || fresh(b)
    {
      hide TryRecoverSpec, CanRecover, Store, AddShred, BatchFor, BatchStates, Valid, Filed;
      ghost var before := State();
      var batch := TakeIn(shred);
      ghost var b := batch.State();
      var recovered := batch.TryRecover();
      if recovered.Some? {
        StoreRecovered(batch.slot, batch.parentSlot, recovered.value, b);
        StoreThenDiscard(h, before, IdOf(shred), b, recovered.value);
        Discard(IdOf(shred));
      }
    }

    /** Looks a block up in the ring first and on disk otherwise. `parse` is the bincode decoder of one
        transaction; those it refuses are dropped. */
    method LoadSlotData<Tx>(slot: nat, parse: Bytes -> Option<Tx>) returns (r: Option<(seq<Tx>, MerkleTree)>)
      requires Valid()
      ensures r == match LoadSlot(h, State(), slot)
                   case None => None
                   case Some(found) => Some((Parsed(parse, found.0), found.1))
    {
      hide Deshred, Build;
      var cached := ring.Get(slot);
      if cached.Some? {
        var data := cached.value;
        if data.numTransactions == 0 || data.merkleTree.None? {
          return None;
        }
        var raw := FlattenEntries(data.entries);
        var txs := ParseTransactions(raw, parse);
        return Some((txs, data.merkleTree.value));
      }
      if slot !in files {
        return None;
      }
      var result := DeshredIntoTxs([files[slot]]);
      if result.None? {
        return None;
      }
      var tree := NewTree(h, result.value.transactions);
      var txs := ParseTransactions(result.value.transactions, parse);
      return Some((txs, tree));
    }

    /** The parent slot of an answer: of a block that is no longer cached it is taken to be the slot
        before (`unwrap_or`). */
    method LoadParentSlot(slot: nat) returns (parent: nat)
      requires Valid()
      ensures match GetFrom(State().ring, slot)
              case Some(d) => parent == d.parentSlot
              case None => if slot == 0 then parent == 0 else parent + 1 == slot
    {
      var cached := ring.Get(slot);
      parent := match cached
        case Some(d) => d.parentSlot
        case None => if slot >= 1 then slot - 1 else 0;
    }
  }

  // ---- Parsing the transactions ----

  function AsList<T>(o: Option<T>): seq<T> {
    match o
    case None => []
    case Some(value) => [value]
  }

  /** The transactions that parse, in order. */
  function Parsed<Tx>(parse: Bytes -> Option<Tx>, raw: seq<Bytes>): (txs: seq<Tx>)
    ensures |txs| <= |raw|
  {
    if raw == [] then []
    else AsList(parse(raw[0])) + Parsed(parse, raw[1..])
  }

  method ParseTransactions<Tx>(raw: seq<Bytes>, parse: Bytes -> Option<Tx>) returns (txs: seq<Tx>)
    ensures txs == Parsed(parse, raw)
  {
    hide Parsed;
    txs := [];
    assert [] + Parsed(parse, raw) == Parsed(parse, raw) && raw[0..] == raw;
    for i := 0 to |raw|
      invariant txs + Parsed(parse, raw[i..]) == Parsed(parse, raw)
    {
      ParsedStep(parse, raw, i);
      var tx := parse(raw[i]);
      if tx.Some? {
        Regroup(txs, tx.value, Parsed(parse, raw[i + 1..]));
        txs := txs + [tx.value];
      } else {
        assert [] + Parsed(parse, raw[i + 1..]) == Parsed(parse, raw[i + 1..]);
      }
    }
    ParsedStep(parse, raw, |raw|);
    assert txs + [] == txs;
  }

  lemma ParsedStep<Tx>(parse: Bytes -> Option<Tx>, raw: seq<Bytes>, i: nat)
    requires i <= |raw|
    ensures i == |raw| ==> Parsed(parse, raw[i..]) == []
    ensures i < |raw| ==> Parsed(parse, raw[i..]) == AsList(parse(raw[i])) + Parsed(parse, raw[i + 1..])
  {
    if i < |raw| {
      assert raw[i..][1..] == raw[i + 1..];
    }
  }

  lemma {:induction false} NothingParsed<Tx>(parse: Bytes -> Option<Tx>, raw: seq<Bytes>)
    ensures Parsed(parse, raw) == [] <==> forall i :: 0 <= i < |raw| ==> parse(raw[i]).None?
  {
    if raw != [] {
      NothingParsed(parse, raw[1..]);
    }
  }

  /** The transaction at each index is the one whose bytes are the leaf at that index. */
  ghost predicate IndexesAgree<Tx>(parse: Bytes -> Option<Tx>, raw: seq<Bytes>) {
    forall i :: 0 <= i < |Parsed(parse, raw)| ==> parse(raw[i]) == Some(Parsed(parse, raw)[i])
  }

  /** Clients name a transaction and its leaf by one index. The two agree exactly when no raw
      transaction that parses stands behind one that does not. */
  lemma {:induction false} IndexesAgreeExactly<Tx>(parse: Bytes -> Option<Tx>, raw: seq<Bytes>)
    ensures IndexesAgree(parse, raw) <==>
      forall i, j :: 0 <= i < j < |raw| && parse(raw[i]).None? ==> parse(raw[j]).None?
    decreases |raw|
  {
    if raw != [] {
      var rest := raw[1..];
      if parse(raw[0]).None? {
        NothingParsed(parse, rest);
        assert forall j :: 0 < j < |raw| && parse(raw[j]).Some? ==> parse(rest[j - 1]).Some?;
      } else {
        IndexesAgreeExactly(parse, rest);
        AgreeBehind(parse, raw);
      }
    }
  }

  lemma AgreeBehind<Tx>(parse: Bytes -> Option<Tx>, raw: seq<Bytes>)
    requires raw != [] && parse(raw[0]).Some?
    ensures IndexesAgree(parse, raw) <==> IndexesAgree(parse, raw[1..])
  {
    var txs, rest := Parsed(parse, raw), Parsed(parse, raw[1..]);
    assert txs == [parse(raw[0]).value] + rest;
    assert forall i :: 0 <= i < |rest| ==> rest[i] == txs[i + 1] && raw[1..][i] == raw[i + 1];
    assert forall i :: 1 <= i < |txs| ==> txs[i] == rest[i - 1] && raw[i] == raw[1..][i - 1];
  }
}
