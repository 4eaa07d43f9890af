/** From the leader's entries to the client: which set of a slot is served, over any run that
    completes it. */
module EndToEnd {
  import opened Options
  import opened Arithmetic
  import opened Gf256
  import opened LinearAlgebra
  import opened ReedSolomon
  import opened AnyKOfN
  import opened FecBatches
  import opened Deshredder
  import opened EntryStream
  import opened Merkle
  import opened SdkVerifier
  import opened RingBuffers
  import opened Pipeline
  import opened PipelineSafety

  // ---- Which set is the last to be complete ----

  /** The indices of a set that a run has delivered, however often. */
  ghost function DeliveredOf(shreds: seq<Shred>, id: SetId): set<nat> {
    if shreds == [] then {}
    else
      var before, shred := DeliveredOf(shreds[..|shreds| - 1], id), shreds[|shreds| - 1];
      if IdOf(shred) == id then Filling(before, shred) else before
  }

  /** No other set of the slot is among the shreds. */
  ghost predicate OnlySetOfSlot(shreds: seq<Shred>, id: SetId) {
    forall k :: 0 <= k < |shreds| && shreds[k].slot == id.slot ==> IdOf(shreds[k]) == id
  }

  /** While only one set of a slot arrives, either it is the last one stored or all of it is still open. */
  lemma {:induction false} LastOrOpen(senders: Senders, before: seq<Shred>, after: seq<Shred>, id: SetId)
    requires id in senders && Deshred(Concat(senders[id].data)).Some? && OnlySetOfSlot(after, id)
    ensures LastStored(senders, before + after, id.slot) == Some(id)
      || Open(before + after, id) == Open(before, id) + DeliveredOf(after, id)
    decreases |after|
  {
    hide Deshred, Concat, Filling;
    var all := before + after;
    if after == [] {
      assert all == before;
    } else {
      var shorter, shred := after[..|after| - 1], after[|after| - 1];
      LastOrOpen(senders, before, shorter, id);
      assert all[..|all| - 1] == before + shorter && all[|all| - 1] == shred;
      FillingMore(Open(before, id), DeliveredOf(shorter, id), shred);
    }
  }

  lemma FillingMore(a: set<nat>, b: set<nat>, shred: Shred)
    ensures Filling(a + b, shred) == a + Filling(b, shred)
  {}

  /** A set whose open and newly delivered indices are 32 together is the last one stored of its slot,
      if no other set of the slot has arrived in the meantime. */
  lemma CompletesLast(senders: Senders, before: seq<Shred>, after: seq<Shred>, id: SetId)
    requires id in senders && Deshred(Concat(senders[id].data)).Some? && OnlySetOfSlot(after, id)
    requires |Open(before, id) + DeliveredOf(after, id)| >= 32
    ensures LastStored(senders, before + after, id.slot) == Some(id)
  {
    hide Deshred, Concat, LastStored, Open, DeliveredOf;
    LastOrOpen(senders, before, after, id);
  }

  /** Once 32 distinct shreds of a set that deshreds have arrived, its slot has a file, of this set or
      of another one. */
  lemma {:induction false} FullSetFillsSlot(senders: Senders, shreds: seq<Shred>, id: SetId)
    requires id in senders && Deshred(Concat(senders[id].data)).Some?
    ensures LastStored(senders, shreds, id.slot).None? ==> Open(shreds, id) == DeliveredOf(shreds, id)
    ensures |DeliveredOf(shreds, id)| >= 32 ==> LastStored(senders, shreds, id.slot).Some?
    decreases |shreds|
  {
    hide Deshred, Concat, Filling;
    if shreds != [] {
      FullSetFillsSlot(senders, shreds[..|shreds| - 1], id);
    }
  }

  // ---- What is served of it ----

  /** The client of the SDK accepts what the server sends it about the leaf at an index. */
  ghost predicate ClientAccepts(h: Hasher, tree: MerkleTree, i: nat) {
    && i < |tree.leaves| && Reaches(tree.layers, i)
    && Fold(h, BytesOfHex(HexEncode(tree.leaves[i])), AllBytes(HexAll(ProofAt(tree.layers, i))), i)
      == BytesOfHex(HexEncode(tree.root))
  }

  /** The leaves of the tree are the digests of the transactions, and the client accepts all of them. */
  ghost predicate AllAccepted(h: Hasher, txs: seq<Bytes>, tree: MerkleTree) {
    |tree.leaves| == |txs| && forall i :: 0 <= i < |txs| ==> tree.leaves[i] == h(txs[i]) && ClientAccepts(h, tree, i)
  }

  lemma BuiltTreeAccepted(h: Hasher, txs: seq<Bytes>)
    ensures AllAccepted(h, txs, Build(h, txs))
  {
    hide Fold, Reaches, HexEncode, BytesOfHex, AllBytes, HexAll, ProofAt, Layers;
    var tree := Build(h, txs);
    forall i | 0 <= i < |txs| ensures tree.leaves[i] == h(txs[i]) && ClientAccepts(h, tree, i) {
      Completeness(h, txs, i);
      ClientAgrees(h, tree.root, tree.leaves[i], ProofAt(tree.layers, i), i);
    }
  }

  /** Any run in which the slot's shreds are honest and the set is the last one stored serves exactly
      the transactions that the leader printed into it, with a tree all of whose proofs the client
      accepts. The shreds of other slots may carry anything. */
  lemma EndToEnd(h: Hasher, capacity: nat, senders: Senders, shreds: seq<Shred>, id: SetId,
    entries: seq<Entry>, padding: Bytes)
    requires capacity > 0 && ValidSenders(senders) && SlotHonest(shreds, senders, id.slot)
    requires LastStored(senders, shreds, id.slot) == Some(id)
    requires Concat(senders[id].data) == PrintStream(entries) + padding
    requires Printable(entries) && 1 <= |entries| <= 1_000_000
    ensures var st, txs := RunFrom(h, capacity, shreds), Flatten(entries);
      LoadSlot(h, st, id.slot) ==
        if txs == [] && GetFrom(st.ring, id.slot).Some? then None else Some((txs, Build(h, txs)))
    ensures AllAccepted(h, Flatten(entries), Build(h, Flatten(entries)))
  {
    hide Deshred, Build, Concat, PrintStream, LoadSlot, Printable, RunFrom, LastStored, AllAccepted;
    ServedExactly(h, capacity, senders, shreds, id.slot);
    DeshredRoundTrip(entries, senders[id].data, padding);
    BuiltTreeAccepted(h, Flatten(entries));
  }

  // ---- The leader ----

  /** The stream, padded with zeros and cut into 32 equal payloads. */
  ghost function LeaderData(stream: Bytes): (rows: Matrix)
    ensures EqualLengths(rows) && |rows| == 32
    ensures Concat(rows) == stream + LeaderPadding(|stream|)
  {
    CutConcat(stream + LeaderPadding(|stream|), |stream| / 32 + 1, 32);
    Cut(stream + LeaderPadding(|stream|), |stream| / 32 + 1, 32)
  }

  ghost function LeaderPadding(length: nat): (zeros: Bytes)
    ensures length + |zeros| == 32 * (length / 32 + 1)
  {
    seq(32 - length % 32, _ => 0)
  }

  ghost function Cut(all: Bytes, size: nat, count: nat): (rows: Matrix)
    requires |all| == count * size
    ensures IsMatrix(rows, count, size)
    decreases count
  {
    if count == 0 then []
    else
      OnePieceLess(size, count);
      [all[..size]] + Cut(all[size..], size, count - 1)
  }

  lemma OnePieceLess(size: nat, count: nat)
    requires count > 0
    ensures count * size == size + (count - 1) * size
  {}

  lemma {:induction false} CutConcat(all: Bytes, size: nat, count: nat)
    requires |all| == count * size
    ensures Concat(Cut(all, size, count)) == all
    decreases count
  {
    if count > 0 {
      OnePieceLess(size, count);
      CutConcat(all[size..], size, count - 1);
      assert Cut(all, size, count)[1..] == Cut(all[size..], size, count - 1);
    }
  }

  /** The set that a leader sends for a list of entries. */
  ghost function LeaderSet(entries: seq<Entry>, numCode: nat): (s: SenderSet)
    requires Printable(entries) && numCode <= 32
    ensures ValidSet(s) && s.numCode == numCode
    ensures Concat(s.data) == PrintStream(entries) + LeaderPadding(|PrintStream(entries)|)
  {
    SenderSet(LeaderData(PrintStream(entries)), numCode)
  }

  /** The shred at an index of a set: the data shreds, then the code shreds. */
  ghost function ShredOf(id: SetId, s: SenderSet, idx: nat): Shred
    requires ValidSet(s) && idx < 32 + s.numCode
  {
    if idx < 32 then
      MerkleData(id.slot, id.fecSetIndex, (id.fecSetIndex + idx) % 0x1_0000_0000, 1, s.data[idx])
    else
      MerkleCode(id.slot, id.fecSetIndex, 32, s.numCode, idx - 32,
        Codeword(s.data, s.numCode)[idx])
  }

  lemma ShredOfArrives(id: SetId, s: SenderSet, idx: nat)
    requires ValidSet(s) && idx < 32 + s.numCode
    ensures var shred := ShredOf(id, s, idx);
      IdOf(shred) == id && HonestFor(shred, s) && TargetOf(shred) == Some(idx)
  {
    hide Codeword, Cauchy, CodeShred, GfInv, GfAdd, U8, AsNat, CauchyRow, ShredOf, ShredArrival;
    ArrivalOf(id, s, idx);
    assert idx < 32 ==> Codeword(s.data, s.numCode)[idx] == s.data[idx];
  }

  lemma ArrivalOf(id: SetId, s: SenderSet, idx: nat)
    requires ValidSet(s) && idx < 32 + s.numCode
    ensures var shred := ShredOf(id, s, idx);
      && IdOf(shred) == id && NumData(shred) == 32
      && (shred.MerkleCode? ==> shred.numCodingShreds == s.numCode && shred.position < s.numCode)
      && ShredArrival(shred) ==
        if idx < 32 then DataArrival(idx, s.data[idx])
        else CodeArrival(idx - 32, Codeword(s.data, s.numCode)[idx])
  {
    hide Codeword, Cauchy, CodeShred, GfInv, GfAdd, U8, AsNat, CauchyRow;
    WrapBack(id.fecSetIndex, idx);
  }

  lemma WrapBack(base: nat, offset: nat)
    requires offset < 0x1_0000_0000
    ensures ((base + offset) % 0x1_0000_0000 - base) % 0x1_0000_0000 == offset
  {}

  /** Shreds of a set in any order, with loss and duplication. */
  ghost function ShredsOf(id: SetId, s: SenderSet, order: seq<nat>): (r: seq<Shred>)
    requires ValidSet(s) && InSet(order, s)
    ensures |r| == |order| && forall k :: 0 <= k < |order| ==> r[k] == ShredOf(id, s, order[k])
  {
    seq(|order|, k requires 0 <= k < |order| => ShredOf(id, s, order[k]))
  }

  ghost predicate InSet(order: seq<nat>, s: SenderSet) {
    forall k :: 0 <= k < |order| ==> order[k] < 32 + s.numCode
  }

  lemma {:induction false} ShredsOfDelivered(senders: Senders, id: SetId, order: seq<nat>)
    requires ValidSenders(senders) && id in senders && InSet(order, senders[id])
    ensures var shreds := ShredsOf(id, senders[id], order);
      AllHonest(shreds, senders) && OnlySetOfSlot(shreds, id) && DeliveredOf(shreds, id) == IndexSet(order)
    decreases |order|
  {
    hide HonestFor, TargetOf, ShredOf;
    var s, shreds := senders[id], ShredsOf(id, senders[id], order);
    forall k | 0 <= k < |shreds| ensures HonestShred(shreds[k], senders) && IdOf(shreds[k]) == id {
      ShredOfArrives(id, s, order[k]);
    }
    if order != [] {
      var before, last := order[..|order| - 1], order[|order| - 1];
      ShredsOfDelivered(senders, id, before);
      ShredOfArrives(id, s, last);
      assert shreds[..|shreds| - 1] == ShredsOf(id, s, before);
      assert IndexSet(order) == IndexSet(before) + {last};
    }
  }

  /** A leader's set for these entries, sent in this order with at least 32 distinct shreds. */
  ghost predicate SentInFull(senders: Senders, id: SetId, entries: seq<Entry>, order: seq<nat>) {
    && Printable(entries) && 1 <= |entries| <= 1_000_000
    && id in senders && senders[id].numCode <= 32
    && senders[id] == LeaderSet(entries, senders[id].numCode)
    && InSet(order, senders[id]) && |IndexSet(order)| >= 32
  }

  /** Every list of entries can be sent: with the first 32 shreds of its set, say. */
  lemma AnyEntriesCanBeSent(senders: Senders, id: SetId, entries: seq<Entry>, numCode: nat)
    requires ValidSenders(senders) && numCode <= 32
    requires Printable(entries) && 1 <= |entries| <= 1_000_000
    ensures var senders', order := senders[id := LeaderSet(entries, numCode)], seq(32, k => k);
      ValidSenders(senders') && SentInFull(senders', id, entries, order)
  {
    hide LeaderSet, Printable, ValidSet;
    DistinctSize(seq(32, k => k));
  }

  lemma SentInFullIsLast(senders: Senders, before: seq<Shred>, id: SetId, entries: seq<Entry>, order: seq<nat>)
    requires ValidSenders(senders) && SlotHonest(before, senders, id.slot) && SentInFull(senders, id, entries, order)
    ensures SlotHonest(before + ShredsOf(id, senders[id], order), senders, id.slot)
    ensures LastStored(senders, before + ShredsOf(id, senders[id], order), id.slot) == Some(id)
  {
    hide Deshred, Concat, LastStored, Open, DeliveredOf, IndexSet, HonestShred, PrintStream, Printable,
      LeaderSet, Flatten;
    var shreds := ShredsOf(id, senders[id], order);
    ShredsOfDelivered(senders, id, order);
    DeshredRoundTrip(entries, senders[id].data, LeaderPadding(|PrintStream(entries)|));
    SubsetSize(DeliveredOf(shreds, id), Open(before, id) + DeliveredOf(shreds, id));
    CompletesLast(senders, before, shreds, id);
  }

  /** The whole way, for every list of entries: print it, pad it, cut it into 32 shreds, add the code
      shreds, and let them arrive in any order that holds 32 different ones, after any run in which the
      shreds of the slot were honest. The node then serves exactly the leader's transactions, and the
      client accepts the proofs of all of them. */
  lemma LeaderToClient(h: Hasher, capacity: nat, senders: Senders, before: seq<Shred>, id: SetId,
    entries: seq<Entry>, order: seq<nat>)
    requires capacity > 0 && ValidSenders(senders) && SlotHonest(before, senders, id.slot)
    requires SentInFull(senders, id, entries, order)
    ensures var st, txs := RunFrom(h, capacity, before + ShredsOf(id, senders[id], order)), Flatten(entries);
      LoadSlot(h, st, id.slot) ==
        if txs == [] && GetFrom(st.ring, id.slot).Some? then None else Some((txs, Build(h, txs)))
    ensures AllAccepted(h, Flatten(entries), Build(h, Flatten(entries)))
  {
    hide LeaderSet, PrintStream, Printable, RunFrom, LoadSlot, Build, Flatten, Concat, HonestShred, IndexSet,
      LeaderPadding, LastStored, AllAccepted;
    SentInFullIsLast(senders, before, id, entries, order);
    var shreds, padding := before + ShredsOf(id, senders[id], order), LeaderPadding(|PrintStream(entries)|);
    EndToEnd(h, capacity, senders, shreds, id, entries, padding);
  }

  /** Two sets of one slot, one after the other: the first is served until the second is complete, and
      then only the second; the node keeps one set of a slot. */
  lemma LaterSetReplaces(h: Hasher, capacity: nat, senders: Senders, first: SetId, second: SetId,
    entries: seq<Entry>, order: seq<nat>, entries': seq<Entry>, order': seq<nat>)
    requires capacity > 0 && ValidSenders(senders) && first.slot == second.slot
    requires SentInFull(senders, first, entries, order) && SentInFull(senders, second, entries', order')
    requires Flatten(entries) != [] && Flatten(entries') != [] && Flatten(entries) != Flatten(entries')
    ensures var early := ShredsOf(first, senders[first], order);
      var late := early + ShredsOf(second, senders[second], order');
      var served := LoadSlot(h, RunFrom(h, capacity, early), first.slot);
      var servedLate := LoadSlot(h, RunFrom(h, capacity, late), first.slot);
      && served.Some? && served.value.0 == Flatten(entries)
      && servedLate.Some? && servedLate.value.0 == Flatten(entries') != Flatten(entries)
  {
    hide LeaderSet, PrintStream, Printable, RunFrom, LoadSlot, Build, Flatten, Concat, HonestFor, IndexSet,
      DeliveredOf;
    var early := ShredsOf(first, senders[first], order);
    ShredsOfDelivered(senders, first, order);
    assert [] + early == early;
    LeaderToClient(h, capacity, senders, [], first, entries, order);
    LeaderToClient(h, capacity, senders, early, second, entries', order');
  }

  // ---- Blocks without transactions ----

  ghost predicate SlotsIn(blocks: seq<SlotData>, slots: set<nat>) {
    forall i :: 0 <= i < |blocks| ==> blocks[i].slot in slots
  }

  /** Every block stored over a run has the slot of some shred. */
  lemma {:induction false} SlotsOfBlocks(h: Hasher, capacity: nat, shreds: seq<Shred>, slots: set<nat>)
    requires capacity > 0 && forall k :: 0 <= k < |shreds| ==> shreds[k].slot in slots
    ensures SlotsIn(StoredBlocks(h, capacity, shreds), slots)
    decreases |shreds|
  {
    hide WellFormed, CanProcess, StoredBy;
    if shreds != [] {
      var before := shreds[..|shreds| - 1];
      SlotsOfBlocks(h, capacity, before, slots);
      RunWellFormed(h, capacity, before);
      SlotOfBlock(h, RunFrom(h, capacity, before), shreds[|shreds| - 1]);
    }
  }

  lemma SlotOfBlock(h: Hasher, st: PipelineState, shred: Shred)
    requires WellFormed(st)
    ensures forall i :: 0 <= i < |StoredBy(h, st, shred)| ==> StoredBy(h, st, shred)[i].slot == shred.slot
  {
    hide Deshred, Concat, CanProcess, RecoveredBy, AddShred, BatchFor, Build;
    BatchWellFormed(st, shred);
  }

  lemma {:induction false} OneSlot(puts: seq<SlotData>, capacity: nat, slot: nat)
    requires capacity > 0 && puts != [] && forall i :: 0 <= i < |puts| ==> puts[i].slot == slot
    ensures SlotBound(puts) == slot + 1
    ensures LatestAt(puts, capacity, slot % capacity) == LatestPut(puts, slot) == Some(puts[|puts| - 1])
    decreases |puts|
  {
    if |puts| > 1 {
      OneSlot(puts[..|puts| - 1], capacity, slot);
    }
  }

  /** A slot of which a run has stored a block. */
  lemma StoredSlot(h: Hasher, capacity: nat, senders: Senders, shreds: seq<Shred>, slot: nat)
    requires capacity > 0 && ValidSenders(senders) && SlotHonest(shreds, senders, slot)
    requires LastStored(senders, shreds, slot).Some?
    ensures LatestPut(StoredBlocks(h, capacity, shreds), slot).Some?
    ensures RunFrom(h, capacity, shreds).ring == PutAll(capacity, StoredBlocks(h, capacity, shreds))
  {
    hide LastStored, RunFrom, StoredBlocks, PutAll, LatestPut, HonestShred;
    RunTracksSlot(h, capacity, senders, shreds, slot);
    RingOfRun(h, capacity, shreds);
  }

  /** A block without transactions, and nothing else: it is on disk, but as long as it is cached the
      node does not serve it. */
  lemma EmptyBlockRefused(h: Hasher, capacity: nat, senders: Senders, id: SetId, entries: seq<Entry>, order: seq<nat>)
    requires 0 < capacity < TWO_64 && ValidSenders(senders) && id.slot + 1 < TWO_64
    requires SentInFull(senders, id, entries, order) && Flatten(entries) == []
    ensures var st := RunFrom(h, capacity, ShredsOf(id, senders[id], order));
      id.slot in st.files && GetFrom(st.ring, id.slot).Some? && LoadSlot(h, st, id.slot) == None
  {
    hide LeaderSet, PrintStream, Printable, RunFrom, LoadSlot, Build, Concat, HonestFor, IndexSet, DeliveredOf,
      LastStored, StoredBlocks, PutAll, ShredOf, GetFrom, PendingHolds;
    var shreds := ShredsOf(id, senders[id], order);
    ShredsOfDelivered(senders, id, order);
    forall k | 0 <= k < |shreds| ensures shreds[k].slot in {id.slot} { ShredOfArrives(id, senders[id], order[k]); }
    assert [] + shreds == shreds;
    SentInFullIsLast(senders, [], id, entries, order);
    StoredSlot(h, capacity, senders, shreds, id.slot);
    SlotsOfBlocks(h, capacity, shreds, {id.slot});
    OneSlot(StoredBlocks(h, capacity, shreds), capacity, id.slot);
    RingRefinesMap(capacity, StoredBlocks(h, capacity, shreds), id.slot);
    RunTracksSlot(h, capacity, senders, shreds, id.slot);
    LeaderToClient(h, capacity, senders, [], id, entries, order);
  }

  /** Shreds of other slots do not change which set is stored last. */
  lemma {:induction false} OtherSlotsKeep(senders: Senders, before: seq<Shred>, after: seq<Shred>, slot: nat)
    requires forall k :: 0 <= k < |after| ==> after[k].slot != slot
    ensures LastStored(senders, before + after, slot) == LastStored(senders, before, slot)
    decreases |after|
  {
    hide Deshred, Concat, Completes;
    var all := before + after;
    if after == [] {
      assert all == before;
    } else {
      OtherSlotsKeep(senders, before, after[..|after| - 1], slot);
      assert all[..|all| - 1] == before + after[..|after| - 1] && all[|all| - 1] == after[|after| - 1];
    }
  }

  /** Once a block of a slot far enough ahead evicts it from the cache, the same block is served, as
      an empty list. */
  lemma EvictedEmptyBlockServed(h: Hasher, capacity: nat, senders: Senders, id: SetId, later: SetId,
    entries: seq<Entry>, order: seq<nat>, entries': seq<Entry>, order': seq<nat>)
    requires 0 < capacity < TWO_64 && ValidSenders(senders)
    requires id.slot + capacity <= later.slot && later.slot + 1 < TWO_64
    requires SentInFull(senders, id, entries, order) && Flatten(entries) == []
    requires SentInFull(senders, later, entries', order')
    ensures var st := RunFrom(h, capacity, ShredsOf(id, senders[id], order) + ShredsOf(later, senders[later], order'));
      LoadSlot(h, st, id.slot) == Some(([], Build(h, [])))
  {
    hide LeaderSet, PrintStream, Printable, RunFrom, LoadSlot, Build, Concat, HonestFor, IndexSet, DeliveredOf,
      LastStored, StoredBlocks, PutAll, ShredOf, GetFrom, PendingHolds, LatestPut, SlotBound, LatestAt;
    var early, more := ShredsOf(id, senders[id], order), ShredsOf(later, senders[later], order');
    var all := early + more;
    forall k | 0 <= k < |early| ensures early[k].slot == id.slot { ShredOfArrives(id, senders[id], order[k]); }
    forall k | 0 <= k < |more| ensures more[k].slot == later.slot { ShredOfArrives(later, senders[later], order'[k]); }
    ShredsOfDelivered(senders, id, order);
    assert [] + early == early;
    SentInFullIsLast(senders, [], id, entries, order);
    SentInFullIsLast(senders, early, later, entries', order');
    OtherSlotsKeep(senders, early, more, id.slot);
    StoredSlot(h, capacity, senders, all, later.slot);
    SlotsOfBlocks(h, capacity, all, {id.slot, later.slot});
    var blocks := StoredBlocks(h, capacity, all);
    LatestAtIsLatestPut(blocks, capacity, later.slot);
    RingRefinesMap(capacity, blocks, id.slot);
    EndToEnd(h, capacity, senders, all, id, entries, LeaderPadding(|PrintStream(entries)|));
  }
}
