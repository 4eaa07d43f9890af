/** The deshredder of `deshredder.rs`: a cursor parser that finds entry and transaction boundaries
    in the concatenated payloads of an erasure set. */
module Deshredder {
  import opened Options
  import opened Arithmetic
  import opened Gf256
  import opened CompactLength

  datatype Entry = Entry(numHashes: nat, hash: Bytes, transactions: seq<Bytes>)

  datatype DeshredResult = DeshredResult(entries: seq<Entry>, transactions: seq<Bytes>)

  /** A value read, and the position behind it. */
  datatype Cursor<+T> = Cursor(value: T, pos: nat)

  function Concat(parts: seq<Bytes>): Bytes {
    if parts == [] then [] else parts[0] + Concat(parts[1..])
  }

  // ---- Reading lengths and integers ----

  /** A compact length from its group `k` on, given the value of the groups before it. A group is
      shifted within 16 bits; a third group that continues is an error. */
  function ShortFrom(data: Bytes, pos: nat, k: nat, value: nat): (r: Option<Cursor<nat>>)
    requires k <= 2
    ensures r.Some? ==> pos < r.value.pos <= |data|
    decreases 3 - k
  {
    if pos >= |data| then None
    else
      var v := Or(value, Shifted(Low7(data[pos]), k) % 0x1_0000);
      if !HighBit(data[pos]) then Some(Cursor(v, pos + 1))
      else if k == 2 then None
      else ShortFrom(data, pos + 1, k + 1, v)
  }

  /** A compact length, group by group: one to three bytes, the last without and the others with the
      high bit, of seven bits each; of the third only the two that fit 16 bits. */
  lemma ShortExactly(data: Bytes, pos: nat)
    ensures ShortAt(data, pos) ==
      if pos < |data| && AsNat(data[pos]) < 128 then
        Some(Cursor(AsNat(data[pos]), pos + 1))
      else if pos + 1 < |data| && AsNat(data[pos]) >= 128 && AsNat(data[pos + 1]) < 128 then
        Some(Cursor(AsNat(data[pos]) - 128 + 128 * AsNat(data[pos + 1]), pos + 2))
      else if pos + 2 < |data| && AsNat(data[pos]) >= 128 && AsNat(data[pos + 1]) >= 128
              && AsNat(data[pos + 2]) < 128 then
        Some(Cursor(
          AsNat(data[pos]) - 128 + 128 * (AsNat(data[pos + 1]) - 128) + 16384 * (AsNat(data[pos + 2]) % 4), pos + 3))
      else None
  {
    hide Low7, HighBit, AsNat, ShortAt;
    ShortGroups(data, pos);
  }

  lemma ShortGroups(data: Bytes, pos: nat)
    ensures ShortAt(data, pos) ==
      if pos < |data| && !HighBit(data[pos]) then
        Some(Cursor(Low7(data[pos]), pos + 1))
      else if pos + 1 < |data| && HighBit(data[pos]) && !HighBit(data[pos + 1]) then
        Some(Cursor(Low7(data[pos]) + 128 * Low7(data[pos + 1]), pos + 2))
      else if pos + 2 < |data| && HighBit(data[pos]) && HighBit(data[pos + 1]) && !HighBit(data[pos + 2]) then
        Some(Cursor(Low7(data[pos]) + 128 * Low7(data[pos + 1]) + 16384 * (Low7(data[pos + 2]) % 4), pos + 3))
      else None
  {
    hide Low7, HighBit, AsNat, Or, Shifted;
    if pos < |data| {
      var a := Low7(data[pos]);
      FirstGroupOr(a);
      if pos + 1 < |data| {
        var b := Low7(data[pos + 1]);
        SecondGroupOr(a, b);
        if pos + 2 < |data| {
          ThirdGroupOr(a + 128 * b, Low7(data[pos + 2]));
        }
      }
    }
  }

  lemma ThreeGroups()
    ensures Pow2(0) == 1 && Pow2(7) == 128 && Pow2(14) == 16384 && Pow2(21) == 0x20_0000
  {
    assert Pow2(7) == 128;
    Pow2Add(7, 7);
    Pow2Add(7, 14);
  }

  lemma FirstGroupOr(low: nat)
    requires low < 128
    ensures Or(0, Shifted(low, 0) % 0x1_0000) == low
  {
    hide Or, Pow2;
    ThreeGroups();
    OrZero(low);
  }

  lemma SecondGroupOr(value: nat, low: nat)
    requires value < 128 && low < 128
    ensures Or(value, Shifted(low, 1) % 0x1_0000) == value + 128 * low
  {
    hide Or, Pow2;
    ThreeGroups();
    OrDisjoint(value, low, 7);
  }

  /** Of the third group, two bits fit. */
  lemma ThirdGroupOr(value: nat, low: nat)
    requires value < 16384 && low < 128
    ensures Or(value, Shifted(low, 2) % 0x1_0000) == value + 16384 * (low % 4)
  {
    hide Or, Pow2;
    ThreeGroups();
    ModScaled(low, 4, 16384);
    OrDisjoint(value, low % 4, 14);
  }

  function ShortAt(data: Bytes, pos: nat): (r: Option<Cursor<nat>>)
    ensures r.Some? ==> pos < r.value.pos <= |data|
  {
    ShortFrom(data, pos, 0, 0)
  }

  function U64At(data: Bytes, pos: nat): (r: Option<Cursor<nat>>)
    ensures r.Some? <==> pos + 8 <= |data|
    ensures r.Some? ==> r.value.pos == pos + 8
  {
    if pos + 8 <= |data| then Some(Cursor(FromLittleEndian(data[pos..pos + 8]), pos + 8)) else None
  }

  /** Where a failed read leaves the cursor: behind three groups, or where the data ends. */
  function FailedAt(data: Bytes, pos: nat): nat {
    if pos + 3 <= |data| then pos + 3
    else if pos <= |data| then |data|
    else pos
  }

  method ReadShortU16(data: Bytes, pos: nat) returns (value: Option<nat>, newPos: nat)
    ensures match ShortAt(data, pos)
            case Some(c) => value == Some(c.value) && newPos == c.pos
            case None => value == None && newPos == FailedAt(data, pos)
  {
    hide Shifted, Low7, HighBit, Or;
    var v: nat, k := 0, 0;
    newPos := pos;
    while true
      invariant k <= 2 && newPos == pos + k && (k > 0 ==> newPos <= |data|)
      invariant ShortAt(data, pos) == ShortFrom(data, newPos, k, v)
      decreases 3 - k
    {
      if newPos >= |data| {
        return None, newPos;
      }
      var b := data[newPos];
      newPos := newPos + 1;
      v := Or(v, Shifted(Low7(b), k) % 0x1_0000);
      if !HighBit(b) {
        return Some(v), newPos;
      }
      k := k + 1;
      if k > 2 {
        return None, newPos;
      }
    }
  }

  method ReadU64(data: Bytes, pos: nat) returns (value: Option<nat>, newPos: nat)
    ensures match U64At(data, pos)
            case Some(c) => value == Some(c.value) && newPos == c.pos
            case None => value == None && newPos == pos
  {
    if pos + 8 <= |data| {
      return Some(FromLittleEndian(data[pos..pos + 8])), pos + 8;
    }
    return None, pos;
  }

  // ---- Transaction boundaries ----

  /** Where a record ends that is `fixed` bytes and then two length-prefixed byte strings: an
      instruction (fixed part: the program index) or an address-table lookup (the table's key). */
  function RecordEnd(data: Bytes, pos: nat, fixed: nat): (r: Option<nat>)
    ensures r.Some? ==> pos + fixed + 2 <= r.value
  {
    match ShortAt(data, pos + fixed)
    case None => None
    case Some(a) =>
      match ShortAt(data, a.pos + a.value)
      case None => None
      case Some(b) => Some(b.pos + b.value)
  }

  /** Skips `count` records. */
  function SkipRecords(data: Bytes, pos: nat, count: nat, fixed: nat): (r: Option<nat>)
    ensures r.Some? ==> pos + count * (fixed + 2) <= r.value
    decreases count
  {
    if count == 0 then Some(pos)
    else
      MulStep(count - 1, fixed + 2);
      match RecordEnd(data, pos, fixed)
      case None => None
      case Some(p) => SkipRecords(data, p, count - 1, fixed)
  }

  /** Where the message's instruction list ends. */
  function MessageEnd(data: Bytes, pos: nat): (r: Option<nat>)
    ensures r.Some? ==> pos + 37 <= r.value
  {
    match ShortAt(data, pos + 3)
    case None => None
    case Some(accounts) =>
      match ShortAt(data, accounts.pos + 32 * accounts.value + 32)
      case None => None
      case Some(ixs) => SkipRecords(data, ixs.pos, ixs.value, 1)
  }

  /** Where the address-table lookups of a versioned message end. */
  function LookupsEnd(data: Bytes, pos: nat): (r: Option<nat>)
    ensures r.Some? ==> pos <= r.value
  {
    match ShortAt(data, pos)
    case None => None
    case Some(lookups) => SkipRecords(data, lookups.pos, lookups.value, 32)
  }

  /** Where the transaction that starts at `start` ends, before checking the buffer's length. */
  function TxEnd(data: Bytes, start: nat): (r: Option<nat>)
    ensures r.Some? ==> start + 38 <= r.value
  {
    match ShortAt(data, start)
    case None => None
    case Some(sigs) =>
      var message := sigs.pos + 64 * sigs.value;
      if message >= |data| then None
      else if HighBit(data[message]) then
        match MessageEnd(data, message + 1)
        case None => None
        case Some(p) => LookupsEnd(data, p)
      else MessageEnd(data, message)
  }

  function TxLenAt(data: Bytes, start: nat): (r: Option<nat>)
    ensures r.Some? ==> 38 <= r.value && start + r.value <= |data|
  {
    match TxEnd(data, start)
    case None => None
    case Some(end) => if end > |data| then None else Some(end - start)
  }

  method SkipRecordsFrom(data: Bytes, pos: nat, count: nat, fixed: nat) returns (r: Option<nat>)
    ensures r == SkipRecords(data, pos, count, fixed)
  {
    hide ShortAt;
    var p: nat := pos;
    for i := 0 to count
      invariant SkipRecords(data, pos, count, fixed) == SkipRecords(data, p, count - i, fixed)
    {
      p := p + fixed;
      var n;
      n, p := ReadShortU16(data, p);
      if n.None? { return None; }
      p := p + n.value;
      n, p := ReadShortU16(data, p);
      if n.None? { return None; }
      p := p + n.value;
    }
    return Some(p);
  }

  method TxLen(data: Bytes, start: nat) returns (r: Option<nat>)
    ensures r == TxLenAt(data, start)
  {
    hide ShortAt, SkipRecords;
    var p := start;
    var sigCount;
    sigCount, p := ReadShortU16(data, p);
    if sigCount.None? { return None; }
    p := p + sigCount.value * 64;
    if p >= |data| { return None; }
    var versioned := HighBit(data[p]);
    if versioned {
      p := p + 1;
    }
    p := p + 3;
    var numAccounts;
    numAccounts, p := ReadShortU16(data, p);
    if numAccounts.None? { return None; }
    p := p + numAccounts.value * 32;
    p := p + 32;
    var numIxs;
    numIxs, p := ReadShortU16(data, p);
    if numIxs.None? { return None; }
    var end := SkipRecordsFrom(data, p, numIxs.value, 1);
    if end.None? { return None; }
    p := end.value;
    if versioned {
      var numLookups;
      numLookups, p := ReadShortU16(data, p);
      if numLookups.None? { return None; }
      end := SkipRecordsFrom(data, p, numLookups.value, 32);
      if end.None? { return None; }
      p := end.value;
    }
    if p > |data| { return None; }
    return Some(p - start);
  }

  // ---- Entries ----

  /** Reads `count` transactions. */
  function TxsAt(data: Bytes, pos: nat, count: nat): (r: Option<Cursor<seq<Bytes>>>)
    ensures r.Some? ==> pos <= r.value.pos && |r.value.value| == count
    ensures r.Some? && pos <= |data| ==> r.value.pos <= |data|
    decreases count
  {
    if count == 0 then Some(Cursor([], pos))
    else
      match TxLenAt(data, pos)
      case None => None
      case Some(n) =>
        match TxsAt(data, pos + n, count - 1)
        case None => None
        case Some(rest) => Some(Cursor([data[pos..pos + n]] + rest.value, rest.pos))
  }

  /** Reads one entry, whole or not at all. */
  function EntryAt(data: Bytes, pos: nat): (r: Option<Cursor<Entry>>)
    ensures r.Some? ==> pos + 48 <= r.value.pos <= |data|
  {
    if pos + 48 > |data| then None
    else
      var numHashes := FromLittleEndian(data[pos..pos + 8]);
      var hash := data[pos + 8..pos + 40];
      var txCount := FromLittleEndian(data[pos + 40..pos + 48]);
      if txCount > 100_000 then None
      else
        match TxsAt(data, pos + 48, txCount)
        case None => None
        case Some(txs) => Some(Cursor(Entry(numHashes, hash, txs.value), txs.pos))
  }

  /** Reads up to `count` entries and stops before the first one that does not parse. */
  function EntriesAt(data: Bytes, pos: nat, count: nat): (r: seq<Entry>)
    ensures |r| <= count
    decreases count
  {
    if count == 0 then []
    else
      match EntryAt(data, pos)
      case None => []
      case Some(e) => [e.value] + EntriesAt(data, e.pos, count - 1)
  }

  function Flatten(entries: seq<Entry>): seq<Bytes> {
    if entries == [] then [] else entries[0].transactions + Flatten(entries[1..])
  }

  /** The transactions of entries in a row are in order, entry by entry. */
  lemma {:induction false} FlattenInOrder(before: seq<Entry>, e: Entry, after: seq<Entry>)
    ensures Flatten(before + [e] + after) == Flatten(before) + e.transactions + Flatten(after)
    decreases |before|
  {
    var all := before + [e] + after;
    if before == [] {
      assert all[0] == e && all[1..] == after;
    } else {
      assert all[0] == before[0] && all[1..] == before[1..] + [e] + after;
      FlattenInOrder(before[1..], e, after);
    }
  }

  /** Payloads in a row are concatenated in order. */
  lemma {:induction false} ConcatInOrder(before: seq<Bytes>, part: Bytes, after: seq<Bytes>)
    ensures Concat(before + [part] + after) == Concat(before) + part + Concat(after)
    decreases |before|
  {
    var all := before + [part] + after;
    if before == [] {
      assert all[0] == part && all[1..] == after;
    } else {
      assert all[0] == before[0] && all[1..] == before[1..] + [part] + after;
      ConcatInOrder(before[1..], part, after);
    }
  }

  function Deshred(all: Bytes): Option<DeshredResult> {
    if |all| < 8 then None
    else
      var numEntries := FromLittleEndian(all[..8]);
      if numEntries > 1_000_000 then None
      else
        var entries := EntriesAt(all, 8, numEntries);
        if entries == [] then None
        else Some(DeshredResult(entries, Flatten(entries)))
  }

  /** A list of transactions read behind others. */
  ghost function After(txs: seq<Bytes>, r: Option<Cursor<seq<Bytes>>>): Option<Cursor<seq<Bytes>>> {
    match r
    case None => None
    case Some(c) => Some(Cursor(txs + c.value, c.pos))
  }

  lemma AfterOne(txs: seq<Bytes>, tx: Bytes, r: Option<Cursor<seq<Bytes>>>)
    ensures After(txs + [tx], r) == After(txs, After([tx], r))
    ensures After([], r) == r
  {
    if r.Some? {
      assert (txs + [tx]) + r.value.value == txs + ([tx] + r.value.value);
      assert [] + r.value.value == r.value.value;
    }
  }

  /** Reads `count` transactions one by one. */
  method ReadTxs(data: Bytes, pos: nat, count: nat) returns (txs: Option<seq<Bytes>>, newPos: nat)
    requires pos <= |data|
    ensures match TxsAt(data, pos, count)
            case Some(c) => txs == Some(c.value) && newPos == c.pos
            case None => txs == None
  {
    hide TxLenAt;
    var transactions: seq<Bytes> := [];
    newPos := pos;
    AfterOne([], [], TxsAt(data, pos, count));
    for i := 0 to count
      invariant pos <= newPos <= |data|
      invariant TxsAt(data, pos, count) == After(transactions, TxsAt(data, newPos, count - i))
    {
      var len := TxLen(data, newPos);
      if len.None? {
        return None, newPos;
      }
      ghost var rest := TxsAt(data, newPos + len.value, count - i - 1);
      AfterOne(transactions, data[newPos..newPos + len.value], rest);
      transactions := transactions + [data[newPos..newPos + len.value]];
      newPos := newPos + len.value;
    }
    assert transactions + [] == transactions;
    return Some(transactions), newPos;
  }

  method DeshredIntoTxs(dataPayloads: seq<Bytes>) returns (r: Option<DeshredResult>)
    ensures r == Deshred(Concat(dataPayloads))
  {
    hide TxsAt, FromLittleEndian, Concat, Flatten;
    var allData := ConcatPayloads(dataPayloads);
    if |allData| < 8 {
      return None;
    }
    var numEntries, pos := ReadU64(allData, 0);
    if numEntries.value > 1_000_000 {
      return None;
    }
    var entries: seq<Entry> := [];
    ghost var all := EntriesAt(allData, 8, numEntries.value);
    assert [] + all == all;
    for i := 0 to numEntries.value
      invariant 8 <= pos <= |allData|
      invariant entries + EntriesAt(allData, pos, numEntries.value - i) == all
    {
      ghost var entryPos := pos;
      var numHashes;
      numHashes, pos := ReadU64(allData, pos);
      if numHashes.None? { break; }
      if pos + 32 > |allData| { break; }
      var hash := allData[pos..pos + 32];
      pos := pos + 32;
      var txCount;
      txCount, pos := ReadU64(allData, pos);
      if txCount.None? || txCount.value > 100_000 { break; }
      var txs;
      txs, pos := ReadTxs(allData, pos, txCount.value);
      if txs.None? { break; }
      var entry := Entry(numHashes.value, hash, txs.value);
      assert EntryAt(allData, entryPos) == Some(Cursor(entry, pos));
      entries := entries + [entry];
    }
    assert entries == all;
    if entries == [] {
      return None;
    }
    var transactions := FlattenEntries(entries);
    return Some(DeshredResult(entries, transactions));
  }

  method ConcatPayloads(payloads: seq<Bytes>) returns (all: Bytes)
    ensures all == Concat(payloads)
  {
    all := [];
    for i := 0 to |payloads|
      invariant all + Concat(payloads[i..]) == Concat(payloads)
    {
      assert payloads[i..][1..] == payloads[i + 1..];
      all := all + payloads[i];
    }
  }

  method FlattenEntries(entries: seq<Entry>) returns (txs: seq<Bytes>)
    ensures txs == Flatten(entries)
  {
    txs := [];
    for i := 0 to |entries|
      invariant txs + Flatten(entries[i..]) == Flatten(entries)
    {
      assert entries[i..][1..] == entries[i + 1..];
      txs := txs + entries[i].transactions;
    }
  }
}
