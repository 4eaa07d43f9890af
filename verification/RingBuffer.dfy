/** The hot block cache of `ring_buffer.rs`: a ring of slots indexed modulo its capacity. */
module RingBuffers {
  import opened Options
  import opened Arithmetic
  import opened Deshredder
  import opened Merkle

  datatype SlotData = SlotData(
    slot: nat, parentSlot: nat, entries: seq<Entry>, numTransactions: nat,
    merkleRoot: Option<Digest>, merkleTree: Option<MerkleTree>)

  /** The contents of a ring. Slots and the ends of the window are 64-bit numbers. */
  datatype Ring = Ring(slots: seq<Option<SlotData>>, head: nat, tail: nat) {
    ghost predicate Valid() {
      && |slots| < TWO_64 && head < TWO_64 && tail < TWO_64
      && (|slots| == 0 ==> tail == 0)
    }

    /** The window [head, tail) is the last |slots| slots up to the greatest one put. */
    ghost predicate Windowed() {
      Valid() && head == if tail > |slots| then tail - |slots| else 0
    }
  }

  ghost function NewRing(capacity: nat): Ring {
    Ring(seq(capacity, _ => None), 0, 0)
  }

  /** Sums and differences wrap at 64 bits. */
  ghost function PutIn(r: Ring, d: SlotData): (r': Ring)
    requires |r.slots| > 0
    ensures |r'.slots| == |r.slots|
  {
    Ring(
      r.slots[d.slot % |r.slots| := Some(d)],
      if d.slot >= (r.head + |r.slots|) % TWO_64 then (d.slot - |r.slots| + 1) % TWO_64 else r.head,
      if d.slot >= r.tail then (d.slot + 1) % TWO_64 else r.tail)
  }

  lemma PutKeepsWindow(r: Ring, d: SlotData)
    requires r.Windowed() && |r.slots| > 0 && d.slot + 1 < TWO_64
    ensures PutIn(r, d).Windowed()
    ensures PutIn(r, d).tail == if d.slot >= r.tail then d.slot + 1 else r.tail
  {
    var n := |r.slots|;
    SmallMod(r.head + n, TWO_64);
    SmallMod(d.slot + 1, TWO_64);
    if d.slot >= r.head + n {
      SmallMod(d.slot - n + 1, TWO_64);
    }
  }

  ghost function GetFrom(r: Ring, slot: nat): Option<SlotData> {
    if slot < r.head || slot >= r.tail || |r.slots| == 0 then None
    else
      var found := r.slots[slot % |r.slots|];
      if found.Some? && found.value.slot == slot then found else None
  }

  class SlotRingBuffer {
    const slots: array<Option<SlotData>>
    var head: nat
    var tail: nat

    ghost function State(): Ring
      reads this, slots
    {
      Ring(slots[..], head, tail)
    }

    ghost predicate Valid()
      reads this, slots
    {
      State().Valid()
    }

    constructor (capacity: nat)
      requires capacity < TWO_64
      ensures Valid() && fresh(slots) && State() == NewRing(capacity) && State().Windowed()
    {
      slots := new Option<SlotData>[capacity](_ => None);
      head, tail := 0, 0;
      new;
      assert slots[..] == NewRing(capacity).slots;
    }

    /** Below the greatest 64-bit slot no sum wraps, and the window stays in place. */
    method Put(slotData: SlotData)
      requires Valid() && slots.Length > 0
      modifies this, slots
      ensures Valid() && State() == PutIn(old(State()), slotData)
      ensures old(State()).Windowed() && slotData.slot + 1 < TWO_64 ==> State().Windowed()
    {
      hide Ring.Windowed;
      if State().Windowed() && slotData.slot + 1 < TWO_64 {
        PutKeepsWindow(State(), slotData);
      }
      var slot := slotData.slot;
      var capacity := slots.Length;
      var idx := slot % capacity;
      slots[idx] := Some(slotData);
      if slot >= (head + capacity) % TWO_64 {
        head := (slot - capacity + 1) % TWO_64;
      }
      if slot >= tail {
        tail := (slot + 1) % TWO_64;
      }
    }

    /** The end of the window; nothing is cached at or behind it, and nothing at all when there is none. */
    method LatestSlot() returns (r: Option<nat>)
      requires Valid()
      ensures r.None? <==> tail == 0
      ensures r.None? ==> forall s: nat :: GetFrom(State(), s).None?
      ensures r.Some? ==> r.value + 1 == tail
      ensures r.Some? ==> forall s: nat :: GetFrom(State(), s).Some? ==> head <= s <= r.value
      ensures r.Some? && State().Windowed() ==> head <= r.value < head + slots.Length
    {
      if tail == 0 {
        return None;
      } else {
        return Some(tail - 1);
      }
    }

    /** The width of the window; the subtraction saturates only after a wrap. */
    method Len() returns (n: nat)
      requires Valid()
      ensures head <= tail ==> head + n == tail
      ensures head > tail ==> n == 0
      ensures State().Windowed() ==> head <= tail && n <= slots.Length
    {
      n := if tail >= head then tail - head else 0;
    }

    method Get(slot: nat) returns (r: Option<SlotData>)
      requires Valid()
      ensures r == GetFrom(State(), slot)
    {
      if slot < head || slot >= tail {
        return None;
      }
      var idx := slot % slots.Length;
      match slots[idx]
      case Some(data) => return if data.slot == slot then Some(data) else None;
      case None => return None;
    }
  }

  /** The successor of the greatest 64-bit slot wraps to zero: putting it hides all that is cached. */
  lemma GreatestSlotHidesAll(r: Ring, d: SlotData, slot: nat)
    requires r.Valid() && |r.slots| > 0 && d.slot == TWO_64 - 1
    ensures GetFrom(PutIn(r, d), slot).None?
  {}

  // ---- Runs of puts ----

  ghost function PutAll(capacity: nat, puts: seq<SlotData>): (r: Ring)
    requires capacity > 0
    ensures |r.slots| == capacity
  {
    if puts == [] then NewRing(capacity)
    else PutIn(PutAll(capacity, puts[..|puts| - 1]), puts[|puts| - 1])
  }

  /** The unbounded map that the ring caches: the latest data put for a slot. */
  ghost function LatestPut(puts: seq<SlotData>, slot: nat): Option<SlotData> {
    if puts == [] then None
    else if puts[|puts| - 1].slot == slot then Some(puts[|puts| - 1])
    else LatestPut(puts[..|puts| - 1], slot)
  }

  /** The latest data put into the ring position `c`. */
  ghost function LatestAt(puts: seq<SlotData>, capacity: nat, c: nat): Option<SlotData>
    requires capacity > 0
  {
    if puts == [] then None
    else if puts[|puts| - 1].slot % capacity == c then Some(puts[|puts| - 1])
    else LatestAt(puts[..|puts| - 1], capacity, c)
  }

  /** One more than the greatest slot put. */
  ghost function SlotBound(puts: seq<SlotData>): nat {
    if puts == [] then 0
    else
      var before, slot := SlotBound(puts[..|puts| - 1]), puts[|puts| - 1].slot;
      if slot >= before then slot + 1 else before
  }

  /** No slot is the greatest 64-bit number. */
  ghost predicate SlotsFit(puts: seq<SlotData>) {
    forall i :: 0 <= i < |puts| ==> puts[i].slot + 1 < TWO_64
  }

  lemma FitBefore(puts: seq<SlotData>)
    requires puts != [] && SlotsFit(puts)
    ensures SlotsFit(puts[..|puts| - 1]) && puts[|puts| - 1].slot + 1 < TWO_64
  {}

  lemma EmptyRing(capacity: nat)
    requires 0 < capacity < TWO_64
    ensures NewRing(capacity).Windowed() && NewRing(capacity).tail == 0
  {}

  lemma PutPosition(r: Ring, d: SlotData, c: nat)
    requires c < |r.slots|
    ensures PutIn(r, d).slots[c] == if d.slot % |r.slots| == c then Some(d) else r.slots[c]
  {}

  /** After any run of puts each position holds the latest data put into it, and the window is the
      last `capacity` slots up to the greatest one put. */
  lemma {:induction false} RingContents(capacity: nat, puts: seq<SlotData>)
    requires 0 < capacity < TWO_64
    ensures var r, bound := PutAll(capacity, puts), SlotBound(puts);
      && (forall c :: 0 <= c < capacity ==> r.slots[c] == LatestAt(puts, capacity, c))
      && (SlotsFit(puts) ==> bound < TWO_64 && r.tail == bound && r.Windowed())
  {
    if puts == [] {
      EmptyRing(capacity);
    } else {
      hide Ring.Windowed, SlotsFit;
      var before, last := puts[..|puts| - 1], puts[|puts| - 1];
      RingContents(capacity, before);
      if SlotsFit(puts) {
        FitBefore(puts);
        PutKeepsWindow(PutAll(capacity, before), last);
      }
      hide PutIn;
      forall c | 0 <= c < capacity ensures PutAll(capacity, puts).slots[c] == LatestAt(puts, capacity, c) {
        PutPosition(PutAll(capacity, before), last, c);
      }
    }
  }

  lemma {:induction false} SlotBoundIsMax(puts: seq<SlotData>)
    ensures SlotBound(puts) == 0 <==> puts == []
    ensures forall i :: 0 <= i < |puts| ==> puts[i].slot < SlotBound(puts)
    ensures puts != [] ==> exists i :: 0 <= i < |puts| && puts[i].slot == SlotBound(puts) - 1
    decreases |puts|
  {
    if puts != [] {
      var before, last := puts[..|puts| - 1], puts[|puts| - 1];
      SlotBoundIsMax(before);
      forall i | 0 <= i < |puts| ensures puts[i].slot < SlotBound(puts) {
        assert i < |before| ==> puts[i] == before[i];
      }
      if last.slot < SlotBound(before) {
        var i :| 0 <= i < |before| && before[i].slot == SlotBound(before) - 1;
        assert puts[i].slot == SlotBound(puts) - 1;
      } else {
        assert puts[|puts| - 1].slot == SlotBound(puts) - 1;
      }
    }
  }

  /** The slots are 64-bit numbers. */
  ghost predicate Slots64(puts: seq<SlotData>) {
    forall i :: 0 <= i < |puts| ==> puts[i].slot < TWO_64
  }

  lemma {:induction false} TailFits(capacity: nat, puts: seq<SlotData>)
    requires capacity > 0
    ensures PutAll(capacity, puts).tail < TWO_64
  {
    if puts != [] {
      TailFits(capacity, puts[..|puts| - 1]);
    }
  }

  /** `tail` is zero if nothing was put, and else one above the greatest slot put. */
  ghost predicate EndsAtMax(tail: nat, puts: seq<SlotData>) {
    && (tail == 0 <==> puts == [])
    && (forall i :: 0 <= i < |puts| ==> puts[i].slot < tail)
    && (tail > 0 ==> exists i :: 0 <= i < |puts| && puts[i].slot == tail - 1)
  }

  lemma SlotBoundEndsAtMax(puts: seq<SlotData>)
    ensures EndsAtMax(SlotBound(puts), puts)
  {
    SlotBoundIsMax(puts);
  }

  lemma MaxIsUnique(a: nat, b: nat, puts: seq<SlotData>)
    requires EndsAtMax(a, puts) && EndsAtMax(b, puts)
    ensures a == b
  {}

  /** `latest_slot` is the greatest slot ever put, exactly as long as that is not the greatest 64-bit
      number, whose successor wraps. */
  lemma LatestSlotIsMax(capacity: nat, puts: seq<SlotData>)
    requires 0 < capacity < TWO_64 && Slots64(puts)
    ensures EndsAtMax(PutAll(capacity, puts).tail, puts) <==> SlotsFit(puts)
  {
    hide PutAll, SlotBound, EndsAtMax;
    RingContents(capacity, puts);
    TailFits(capacity, puts);
    SlotBoundEndsAtMax(puts);
    if EndsAtMax(PutAll(capacity, puts).tail, puts) {
      MaxIsUnique(PutAll(capacity, puts).tail, SlotBound(puts), puts);
      SlotBoundIsMax(puts);
    }
  }

  lemma {:induction false} LatestAtIsLatestPut(puts: seq<SlotData>, capacity: nat, slot: nat)
    requires capacity > 0
    ensures var found := LatestAt(puts, capacity, slot % capacity);
      found.Some? && found.value.slot == slot ==> LatestPut(puts, slot) == found
    ensures LatestPut(puts, slot).Some? ==> LatestPut(puts, slot).value.slot == slot < SlotBound(puts)
  {
    if puts != [] {
      LatestAtIsLatestPut(puts[..|puts| - 1], capacity, slot);
    }
  }

  /** The ring never answers with stale or foreign data: what it returns for a slot is the latest
      data put for that slot. It returns it exactly when the slot is in the window and no later
      put of another slot took its position. */
  lemma RingRefinesMap(capacity: nat, puts: seq<SlotData>, slot: nat)
    requires 0 < capacity < TWO_64
    ensures var r := GetFrom(PutAll(capacity, puts), slot);
      && (r.Some? ==> r == LatestPut(puts, slot))
      && (SlotsFit(puts) ==> (r.Some? <==>
        && slot < SlotBound(puts) <= slot + capacity
        && LatestPut(puts, slot).Some?
        && LatestAt(puts, capacity, slot % capacity) == LatestPut(puts, slot)))
  {
    RingContents(capacity, puts);
    LatestAtIsLatestPut(puts, capacity, slot);
  }

  /** No put is older than the window at the time it is made. */
  ghost predicate NoStalePuts(capacity: nat, puts: seq<SlotData>)
    requires capacity > 0
  {
    puts == [] || (
      && NoStalePuts(capacity, puts[..|puts| - 1])
      && puts[|puts| - 1].slot + capacity >= SlotBound(puts[..|puts| - 1]))
  }

  lemma SamePosition(s: nat, t: nat, capacity: nat)
    requires capacity > 0 && s % capacity == t % capacity && s < t
    ensures s + capacity <= t
  {
    var q, p := s / capacity, t / capacity;
    if p <= q {
      MulMonotone(p, q, capacity);
    } else {
      MulStep(q, capacity);
      MulMonotone(q + 1, p, capacity);
    }
  }

  lemma {:induction false} WindowKept(capacity: nat, puts: seq<SlotData>, slot: nat)
    requires capacity > 0 && NoStalePuts(capacity, puts)
    requires SlotBound(puts) <= slot + capacity && LatestPut(puts, slot).Some?
    ensures LatestAt(puts, capacity, slot % capacity) == LatestPut(puts, slot)
    decreases |puts|
  {
    var before, last := puts[..|puts| - 1], puts[|puts| - 1];
    if last.slot != slot {
      LatestAtIsLatestPut(before, capacity, slot);
      WindowKept(capacity, before, slot);
      if last.slot % capacity == slot % capacity {
        if last.slot < slot {
          SamePosition(last.slot, slot, capacity);
        } else {
          SamePosition(slot, last.slot, capacity);
        }
        assert false;
      }
    }
  }

  ghost predicate AnswersLikeWindow(capacity: nat, puts: seq<SlotData>, slot: nat)
    requires capacity > 0
  {
    GetFrom(PutAll(capacity, puts), slot) == if SlotBound(puts) <= slot + capacity then LatestPut(puts, slot) else None
  }

  /** Without stale puts the ring is the unbounded map restricted to the last `capacity` slots. */
  lemma WindowOfMap(capacity: nat, puts: seq<SlotData>, slot: nat)
    requires 0 < capacity < TWO_64 && NoStalePuts(capacity, puts) && SlotsFit(puts)
    ensures AnswersLikeWindow(capacity, puts, slot)
  {
    hide GetFrom, PutAll, LatestPut, LatestAt, SlotBound, NoStalePuts, SlotsFit;
    RingRefinesMap(capacity, puts, slot);
    LatestAtIsLatestPut(puts, capacity, slot);
    if SlotBound(puts) <= slot + capacity && LatestPut(puts, slot).Some? {
      WindowKept(capacity, puts, slot);
    }
  }

  lemma {:induction false} SomePut(puts: seq<SlotData>, i: nat)
    requires i < |puts|
    ensures LatestPut(puts, puts[i].slot).Some?
  {
    if i < |puts| - 1 && puts[|puts| - 1].slot != puts[i].slot {
      SomePut(puts[..|puts| - 1], i);
    }
  }

  /** It is so for all slots exactly as long as the greatest 64-bit slot has not been put. */
  lemma RingIsWindowOfMap(capacity: nat, puts: seq<SlotData>)
    requires 0 < capacity < TWO_64 && NoStalePuts(capacity, puts) && Slots64(puts)
    ensures (forall slot: nat :: AnswersLikeWindow(capacity, puts, slot)) <==> SlotsFit(puts)
  {
    hide PutAll, LatestPut, SlotBound, NoStalePuts, AnswersLikeWindow;
    if SlotsFit(puts) {
      forall slot: nat ensures AnswersLikeWindow(capacity, puts, slot) {
        WindowOfMap(capacity, puts, slot);
      }
    } else {
      var i :| 0 <= i < |puts| && puts[i].slot + 1 >= TWO_64;
      GreatestSlotLost(capacity, puts, i);
    }
  }

  lemma GreatestSlotLost(capacity: nat, puts: seq<SlotData>, i: nat)
    requires 0 < capacity < TWO_64 && Slots64(puts)
    requires i < |puts| && puts[i].slot == TWO_64 - 1
    ensures !AnswersLikeWindow(capacity, puts, TWO_64 - 1)
  {
    hide PutAll, LatestPut, SlotBound;
    TailFits(capacity, puts);
    SomePut(puts, i);
    SlotBoundIsMax(puts);
  }
}
