/** The wire layout that the deshredder reads, as a printer, and what parsing and printing have to
    do with each other. */
module EntryStream {
  import opened Options
  import opened Arithmetic
  import opened Gf256
  import opened CompactLength
  import opened Deshredder

  /** `s` stands in `data` at `pos`. */
  ghost predicate StandsAt(data: Bytes, pos: nat, s: Bytes) {
    pos + |s| <= |data| && data[pos..pos + |s|] == s
  }

  lemma StandsAtSplit(data: Bytes, pos: nat, s: Bytes, t: Bytes)
    ensures StandsAt(data, pos, s + t) <==> StandsAt(data, pos, s) && StandsAt(data, pos + |s|, t)
  {
    if pos + |s| + |t| <= |data| {
      var whole, left, right := data[pos..pos + |s + t|], data[pos..pos + |s|], data[pos + |s|..pos + |s| + |t|];
      assert whole == left + right;
      if whole == s + t {
        assert left == whole[..|s|] == s;
        assert right == whole[|s|..] == t;
      }
    }
  }

  lemma FirstByte(data: Bytes, pos: nat, s: Bytes)
    requires StandsAt(data, pos, s) && |s| > 0
    ensures pos < |data| && data[pos] == s[0]
  {
    assert data[pos..pos + |s|][0] == data[pos];
  }

  lemma Standing(data: Bytes, pos: nat, end: nat)
    requires pos <= end <= |data|
    ensures StandsAt(data, pos, data[pos..end])
  {}

  lemma NothingStands(data: Bytes, pos: nat)
    requires pos <= |data|
    ensures StandsAt(data, pos, [])
  {}

  // ---- Lengths ----

  lemma {:induction false} ShortFromOfCompactLen(data: Bytes, pos: nat, n: nat, k: nat, value: nat)
    requires k <= 2 && Shifted(n, k) < 0x1_0000 && StandsAt(data, pos, CompactLen(n)) && value < Pow2(7 * k)
    ensures ShortFrom(data, pos, k, value) == Some(Cursor(value + Shifted(n, k), pos + |CompactLen(n)|))
    decreases n
  {
    hide Low7, HighBit, AsNat, ToByte, Shifted, Or, Pow2;
    FirstByte(data, pos, CompactLen(n));
    FirstGroup(n);
    OrGroup(value, n % 128, k);
    if n >= 128 {
      ShiftedSplit(n % 128, n / 128, k);
      ShiftedGrows(n, k);
      StandsAtSplit(data, pos, [CompactLen(n)[0]], CompactLen(n / 128));
      assert CompactLen(n) == [CompactLen(n)[0]] + CompactLen(n / 128);
      ShortFromOfCompactLen(data, pos + 1, n / 128, k + 1, value + Shifted(n % 128, k));
    }
  }

  /** A group lands above the bits already read. */
  lemma OrGroup(value: nat, low: nat, k: nat)
    requires value < Pow2(7 * k) && low < 128
    ensures Or(value, Shifted(low, k)) == value + Shifted(low, k) < Pow2(7 * (k + 1))
  {
    hide Or, Pow2;
    OrDisjoint(value, low, 7 * k);
    SevenMore(k);
    BelowMultiple(low, Pow2(7 * k), 128);
  }

  lemma ShiftedGrows(n: nat, k: nat)
    requires k <= 2 && n >= 128 && Shifted(n, k) < 0x1_0000
    ensures k < 2
    ensures Shifted(n % 128, k) < 0x1_0000 && Shifted(n / 128, k + 1) < 0x1_0000
  {
    ThreeGroups();
    ShiftedSplit(n % 128, n / 128, k);
  }

  /** `read_shortu16` reads back what the compact length encoder writes, for every 16-bit length. */
  lemma ShortOfCompactLen(data: Bytes, pos: nat, n: nat)
    requires n < 0x1_0000 && StandsAt(data, pos, CompactLen(n))
    ensures ShortAt(data, pos) == Some(Cursor(n, pos + |CompactLen(n)|))
  {
    ShiftedUnit(n);
    ShortFromOfCompactLen(data, pos, n, 0, 0);
  }

  /** On 16-bit lengths the transaction parser and the gossip codec read the same value and the
      same number of bytes, at most three. */
  lemma CodecsAgree(n: nat, rest: Bytes)
    requires n < 0x1_0000
    ensures var bytes := CompactLen(n) + rest;
      && ShortAt(bytes, 0) == Some(Cursor(LenValue(bytes), LenCount(bytes)))
      && LenValue(bytes) == n && LenCount(bytes) <= 3
  {
    var bytes := CompactLen(n) + rest;
    assert bytes[0..|CompactLen(n)|] == CompactLen(n);
    ShortOfCompactLen(bytes, 0, n);
    CompactLenRoundTrip(n, rest);
    ThreeGroups();
    CompactLenSize(n, 3);
  }

  // ---- Locality: a parse looks only at the bytes it consumes ----

  /** From `p` up to `q`, `d` reads like `e` moved by `delta`. */
  ghost predicate SameWindow(d: Bytes, e: Bytes, p: nat, q: nat, delta: int) {
    forall i :: p <= i < q ==> SameByte(d, e, i, delta)
  }

  ghost predicate SameByte(d: Bytes, e: Bytes, i: nat, delta: int) {
    i < |d| && 0 <= i + delta < |e| && d[i] == e[i + delta]
  }

  lemma {:induction false} ShortFromLocal(d: Bytes, e: Bytes, p: nat, k: nat, value: nat, delta: int)
    requires k <= 2 && ShortFrom(d, p, k, value).Some? && p + delta >= 0
    requires SameWindow(d, e, p, ShortFrom(d, p, k, value).value.pos, delta)
    ensures var c := ShortFrom(d, p, k, value).value;
      ShortFrom(e, p + delta, k, value) == Some(Cursor(c.value, c.pos + delta))
    decreases 3 - k
  {
    hide Low7, HighBit, Shifted;
    assert SameByte(d, e, p, delta);
    if HighBit(d[p]) {
      ShortFromLocal(d, e, p + 1, k + 1, Or(value, Shifted(Low7(d[p]), k) % 0x1_0000), delta);
    }
  }

  lemma ShortLocal(d: Bytes, e: Bytes, p: nat, delta: int, end: nat)
    requires ShortAt(d, p).Some? && ShortAt(d, p).value.pos <= end && p + delta >= 0
    requires SameWindow(d, e, p, end, delta)
    ensures var c := ShortAt(d, p).value;
      c.pos + delta >= 0 && ShortAt(e, p + delta) == Some(Cursor(c.value, c.pos + delta))
  {
    ShortFromLocal(d, e, p, 0, 0, delta);
  }

  lemma RecordEndLocal(d: Bytes, e: Bytes, p: nat, fixed: nat, delta: int, end: nat)
    requires RecordEnd(d, p, fixed).Some? && RecordEnd(d, p, fixed).value <= end
    requires p + delta >= 0 && SameWindow(d, e, p, end, delta)
    ensures RecordEnd(e, p + delta, fixed) == Some(RecordEnd(d, p, fixed).value + delta)
  {
    hide ShortAt;
    var a := ShortAt(d, p + fixed).value;
    ShortLocal(d, e, p + fixed, delta, end);
    ShortLocal(d, e, a.pos + a.value, delta, end);
  }

  lemma {:induction false} SkipRecordsLocal(d: Bytes, e: Bytes, p: nat, count: nat, fixed: nat, delta: int, end: nat)
    requires SkipRecords(d, p, count, fixed).Some? && SkipRecords(d, p, count, fixed).value <= end
    requires p + delta >= 0 && SameWindow(d, e, p, end, delta)
    ensures SkipRecords(e, p + delta, count, fixed) == Some(SkipRecords(d, p, count, fixed).value + delta)
    decreases count
  {
    hide RecordEnd;
    if count > 0 {
      RecordEndLocal(d, e, p, fixed, delta, end);
      SkipRecordsLocal(d, e, RecordEnd(d, p, fixed).value, count - 1, fixed, delta, end);
    }
  }

  lemma MessageEndLocal(d: Bytes, e: Bytes, p: nat, delta: int, end: nat)
    requires MessageEnd(d, p).Some? && MessageEnd(d, p).value <= end
    requires p + delta >= 0 && SameWindow(d, e, p, end, delta)
    ensures MessageEnd(e, p + delta) == Some(MessageEnd(d, p).value + delta)
  {
    hide ShortAt, SkipRecords;
    var accounts := ShortAt(d, p + 3).value;
    var hashEnd := accounts.pos + 32 * accounts.value + 32;
    var ixs := ShortAt(d, hashEnd).value;
    ShortLocal(d, e, p + 3, delta, end);
    ShortLocal(d, e, hashEnd, delta, end);
    SkipRecordsLocal(d, e, ixs.pos, ixs.value, 1, delta, end);
  }

  lemma LookupsEndLocal(d: Bytes, e: Bytes, p: nat, delta: int, end: nat)
    requires LookupsEnd(d, p).Some? && LookupsEnd(d, p).value <= end
    requires p + delta >= 0 && SameWindow(d, e, p, end, delta)
    ensures LookupsEnd(e, p + delta) == Some(LookupsEnd(d, p).value + delta)
  {
    hide ShortAt, SkipRecords;
    var lookups := ShortAt(d, p).value;
    ShortLocal(d, e, p, delta, end);
    SkipRecordsLocal(d, e, lookups.pos, lookups.value, 32, delta, end);
  }

  /** The length of a transaction depends on nothing but the transaction's own bytes: any other
      buffer that holds them, at any offset, yields the same length. */
  lemma TxLenLocal(d: Bytes, s: nat, e: Bytes, t: nat)
    requires TxLenAt(d, s).Some?
    requires StandsAt(e, t, d[s..s + TxLenAt(d, s).value])
    ensures TxLenAt(e, t) == TxLenAt(d, s)
  {
    hide ShortAt, MessageEnd, LookupsEnd, HighBit;
    var n, delta := TxLenAt(d, s).value, t - s;
    var end := s + n;
    forall i | s <= i < end ensures SameByte(d, e, i, delta) {
      assert d[s..end][i - s] == e[t..t + n][i - s];
    }
    var sigs := ShortAt(d, s).value;
    var message := sigs.pos + 64 * sigs.value;
    ShortLocal(d, e, s, delta, end);
    assert SameByte(d, e, message, delta) && SameByte(d, e, end - 1, delta);
    if HighBit(d[message]) {
      var p := MessageEnd(d, message + 1).value;
      MessageEndLocal(d, e, message + 1, delta, end);
      LookupsEndLocal(d, e, p, delta, end);
    } else {
      MessageEndLocal(d, e, message, delta, end);
    }
  }

  /** A byte string that is one whole transaction. */
  ghost predicate IsTx(tx: Bytes) {
    TxLenAt(tx, 0) == Some(|tx|)
  }

  lemma TxAtIsTx(data: Bytes, pos: nat)
    requires TxLenAt(data, pos).Some?
    ensures IsTx(data[pos..pos + TxLenAt(data, pos).value])
  {
    hide TxLenAt;
    var tx := data[pos..pos + TxLenAt(data, pos).value];
    assert tx[0..|tx|] == tx;
    TxLenLocal(data, pos, tx, 0);
  }

  lemma TxStandingAt(data: Bytes, pos: nat, tx: Bytes)
    requires IsTx(tx) && StandsAt(data, pos, tx)
    ensures TxLenAt(data, pos) == Some(|tx|)
  {
    hide TxLenAt;
    assert tx[0..|tx|] == tx;
    TxLenLocal(tx, 0, data, pos);
  }

  /** Boundaries are unique: a concatenation of transactions splits in only one way. */
  lemma {:induction false} BoundariesUnique(txs: seq<Bytes>, txs': seq<Bytes>)
    requires forall i :: 0 <= i < |txs| ==> IsTx(txs[i])
    requires forall i :: 0 <= i < |txs'| ==> IsTx(txs'[i])
    requires Concat(txs) == Concat(txs')
    ensures txs == txs'
    decreases |txs|
  {
    hide TxLenAt;
    var all := Concat(txs);
    if txs != [] && txs' != [] {
      FirstStands(txs);
      FirstStands(txs');
      TxStandingAt(all, 0, txs[0]);
      TxStandingAt(all, 0, txs'[0]);
      assert Concat(txs[1..]) == all[|txs[0]|..] == Concat(txs'[1..]);
      BoundariesUnique(txs[1..], txs'[1..]);
      assert txs == [txs[0]] + txs[1..] == [txs'[0]] + txs'[1..] == txs';
    } else if txs != [] {
      TxNotEmpty(txs[0]);
    } else if txs' != [] {
      TxNotEmpty(txs'[0]);
    }
  }

  lemma TxNotEmpty(tx: Bytes)
    requires IsTx(tx)
    ensures |tx| >= 38
  {}

  lemma FirstStands(txs: seq<Bytes>)
    requires txs != []
    ensures StandsAt(Concat(txs), 0, txs[0])
  {
    assert Concat(txs)[0..|txs[0]|] == txs[0];
  }

  // ---- Printing entries ----

  ghost predicate PrintableEntry(e: Entry) {
    && e.numHashes < TWO_64 && |e.hash| == 32 && |e.transactions| <= 100_000
    && forall i :: 0 <= i < |e.transactions| ==> IsTx(e.transactions[i])
  }

  ghost predicate Printable(entries: seq<Entry>) {
    forall i :: 0 <= i < |entries| ==> PrintableEntry(entries[i])
  }

  function PrintEntry(e: Entry): Bytes {
    LittleEndian(e.numHashes, 8) + e.hash + LittleEndian(|e.transactions|, 8) + Concat(e.transactions)
  }

  function PrintEntries(entries: seq<Entry>): Bytes {
    if entries == [] then [] else PrintEntry(entries[0]) + PrintEntries(entries[1..])
  }

  /** The serialized entry vector. */
  function PrintStream(entries: seq<Entry>): Bytes {
    LittleEndian(|entries|, 8) + PrintEntries(entries)
  }

  lemma {:induction false} TxsRoundTrip(data: Bytes, pos: nat, txs: seq<Bytes>)
    requires forall i :: 0 <= i < |txs| ==> IsTx(txs[i])
    requires StandsAt(data, pos, Concat(txs))
    ensures TxsAt(data, pos, |txs|) == Some(Cursor(txs, pos + |Concat(txs)|))
    decreases |txs|
  {
    hide TxLenAt;
    if txs != [] {
      StandsAtSplit(data, pos, txs[0], Concat(txs[1..]));
      TxStandingAt(data, pos, txs[0]);
      TxsRoundTrip(data, pos + |txs[0]|, txs[1..]);
      assert txs == [txs[0]] + txs[1..];
    }
  }

  /** Where an entry's fields stand. */
  lemma EntryFields(data: Bytes, pos: nat, e: Entry)
    requires |e.hash| == 32
    ensures StandsAt(data, pos, PrintEntry(e)) <==>
      && StandsAt(data, pos, LittleEndian(e.numHashes, 8))
      && StandsAt(data, pos + 8, e.hash)
      && StandsAt(data, pos + 40, LittleEndian(|e.transactions|, 8))
      && StandsAt(data, pos + 48, Concat(e.transactions))
  {
    hide LittleEndian, Concat, StandsAt;
    var a, b, c, d := LittleEndian(e.numHashes, 8), e.hash, LittleEndian(|e.transactions|, 8), Concat(e.transactions);
    StandsAtSplit(data, pos, a + b + c, d);
    StandsAtSplit(data, pos, a + b, c);
    StandsAtSplit(data, pos, a, b);
  }

  lemma LittleEndianOf64(n: nat)
    requires n < TWO_64
    ensures FromLittleEndian(LittleEndian(n, 8)) == n
  {
    Pow2Of64();
    LittleEndianRoundTrip(n, 8);
  }

  lemma EntryRoundTrip(data: Bytes, pos: nat, e: Entry)
    requires PrintableEntry(e) && StandsAt(data, pos, PrintEntry(e))
    ensures EntryAt(data, pos) == Some(Cursor(e, pos + |PrintEntry(e)|))
  {
    hide LittleEndian, FromLittleEndian, TxsAt, Concat, IsTx;
    EntryFields(data, pos, e);
    LittleEndianOf64(e.numHashes);
    LittleEndianOf64(|e.transactions|);
    TxsRoundTrip(data, pos + 48, e.transactions);
  }

  lemma {:induction false} EntriesRoundTrip(data: Bytes, pos: nat, entries: seq<Entry>)
    requires Printable(entries) && StandsAt(data, pos, PrintEntries(entries))
    ensures EntriesAt(data, pos, |entries|) == entries
    decreases |entries|
  {
    hide PrintEntry, EntryAt, PrintableEntry;
    if entries != [] {
      StandsAtSplit(data, pos, PrintEntry(entries[0]), PrintEntries(entries[1..]));
      EntryRoundTrip(data, pos, entries[0]);
      EntriesRoundTrip(data, pos + |PrintEntry(entries[0])|, entries[1..]);
      assert entries == [entries[0]] + entries[1..];
    }
  }

  /** Printing, cutting into payloads in any way, and deshredding gives the entries back, whatever
      bytes follow them. */
  lemma DeshredRoundTrip(entries: seq<Entry>, payloads: seq<Bytes>, trailing: Bytes)
    requires Printable(entries) && 1 <= |entries| <= 1_000_000
    requires Concat(payloads) == PrintStream(entries) + trailing
    ensures Deshred(Concat(payloads)) == Some(DeshredResult(entries, Flatten(entries)))
  {
    hide LittleEndian, FromLittleEndian, PrintEntries, EntriesAt, PrintableEntry;
    var all, count, body := Concat(payloads), LittleEndian(|entries|, 8), PrintEntries(entries);
    assert all[..8] == count;
    assert all[8..8 + |body|] == body;
    LittleEndianOf64(|entries|);
    EntriesRoundTrip(all, 8, entries);
  }

  // ---- Faithfulness of a parse, whole or partial ----

  lemma {:induction false} TxsFaithful(data: Bytes, pos: nat, count: nat)
    requires TxsAt(data, pos, count).Some? && pos <= |data|
    ensures var c := TxsAt(data, pos, count).value;
      && (forall i :: 0 <= i < |c.value| ==> IsTx(c.value[i]))
      && StandsAt(data, pos, Concat(c.value)) && c.pos == pos + |Concat(c.value)|
    decreases count
  {
    hide TxLenAt, IsTx, StandsAt;
    if count == 0 {
      assert StandsAt(data, pos, []) by { NothingStands(data, pos); }
    } else {
      var n := TxLenAt(data, pos).value;
      var tx, rest := data[pos..pos + n], TxsAt(data, pos + n, count - 1).value;
      TxAtIsTx(data, pos);
      TxsFaithful(data, pos + n, count - 1);
      StandsAtSplit(data, pos, tx, Concat(rest.value));
      Standing(data, pos, pos + n);
      assert ([tx] + rest.value)[1..] == rest.value;
    }
  }

  lemma LittleEndianOfWindow(data: Bytes, pos: nat)
    requires pos + 8 <= |data|
    ensures FromLittleEndian(data[pos..pos + 8]) < TWO_64
    ensures StandsAt(data, pos, LittleEndian(FromLittleEndian(data[pos..pos + 8]), 8))
  {
    Pow2Of64();
    FromLittleEndianRoundTrip(data[pos..pos + 8]);
  }

  lemma EntryFaithful(data: Bytes, pos: nat)
    requires EntryAt(data, pos).Some?
    ensures var c := EntryAt(data, pos).value;
      && PrintableEntry(c.value)
      && StandsAt(data, pos, PrintEntry(c.value)) && c.pos == pos + |PrintEntry(c.value)|
  {
    hide LittleEndian, FromLittleEndian, TxsAt, Concat, IsTx;
    var e := EntryAt(data, pos).value.value;
    LittleEndianOfWindow(data, pos);
    LittleEndianOfWindow(data, pos + 40);
    TxsFaithful(data, pos + 48, |e.transactions|);
    EntryFields(data, pos, e);
  }

  /** A printable entry stands in the data. */
  ghost predicate EntryStands(data: Bytes, pos: nat) {
    exists e :: PrintableEntry(e) && StandsAt(data, pos, PrintEntry(e))
  }

  /** The parser reads an entry exactly where one stands. */
  lemma EntryAtExactly(data: Bytes, pos: nat)
    ensures EntryAt(data, pos).Some? <==> EntryStands(data, pos)
  {
    hide EntryAt, PrintableEntry, PrintEntry;
    if EntryAt(data, pos).Some? {
      EntryFaithful(data, pos);
    } else if EntryStands(data, pos) {
      var e :| PrintableEntry(e) && StandsAt(data, pos, PrintEntry(e));
      EntryRoundTrip(data, pos, e);
    }
  }

  lemma {:induction false} EntriesFaithful(data: Bytes, pos: nat, count: nat)
    requires pos <= |data|
    ensures var entries := EntriesAt(data, pos, count);
      && Printable(entries) && StandsAt(data, pos, PrintEntries(entries))
      && (|entries| < count ==> EntryAt(data, pos + |PrintEntries(entries)|).None?)
    decreases count
  {
    hide EntryAt, PrintEntry, PrintableEntry;
    if count > 0 && EntryAt(data, pos).Some? {
      var c := EntryAt(data, pos).value;
      var rest := EntriesAt(data, c.pos, count - 1);
      EntryFaithful(data, pos);
      EntriesFaithful(data, c.pos, count - 1);
      StandsAtSplit(data, pos, PrintEntry(c.value), PrintEntries(rest));
      assert ([c.value] + rest)[1..] == rest;
    }
  }

  /** Whatever bytes are deshredded, the entries returned print to exactly the bytes behind the
      count, none of them has a truncated transaction list, the flattened list is theirs in order,
      and parsing stopped only at the announced count or where no entry stands. */
  lemma DeshredFaithful(all: Bytes)
    requires Deshred(all).Some?
    ensures var r := Deshred(all).value;
      var announced := FromLittleEndian(all[..8]);
      && 1 <= |r.entries| <= announced <= 1_000_000
      && Printable(r.entries) && StandsAt(all, 8, PrintEntries(r.entries))
      && r.transactions == Flatten(r.entries)
      && (|r.entries| < announced ==> !EntryStands(all, 8 + |PrintEntries(r.entries)|))
  {
    hide FromLittleEndian, EntriesAt, PrintEntries, EntryAt, PrintableEntry, EntryStands;
    EntriesFaithful(all, 8, FromLittleEndian(all[..8]));
    EntryAtExactly(all, 8 + |PrintEntries(Deshred(all).value.entries)|);
  }

  /** Nothing is returned exactly for less than eight bytes, an announced count of none or of more than
      a million, or when no entry stands behind the count. */
  lemma NothingDeshredExactly(all: Bytes)
    ensures Deshred(all).None? <==>
      || |all| < 8
      || FromLittleEndian(all[..8]) == 0
      || FromLittleEndian(all[..8]) > 1_000_000
      || !EntryStands(all, 8)
  {
    hide FromLittleEndian, EntryAt, EntryStands;
    EntryAtExactly(all, 8);
  }

  /** An entry that announces more than 100_000 transactions is refused. */
  lemma TooManyTransactions(data: Bytes, pos: nat)
    requires pos + 48 <= |data| && FromLittleEndian(data[pos + 40..pos + 48]) > 100_000
    ensures EntryAt(data, pos).None? && !EntryStands(data, pos)
  {
    hide FromLittleEndian, TxsAt, EntryStands;
    EntryAtExactly(data, pos);
  }
}
