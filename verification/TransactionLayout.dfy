/** The wire layout of a transaction: what `tx_len` measures is exactly what is laid out so. */
module TransactionLayout {
  import opened Options
  import opened Arithmetic
  import opened Gf256
  import opened CompactLength
  import opened Deshredder
  import opened EntryStream

  /** An instruction or a lookup: a fixed part and two byte strings behind their lengths. */
  datatype Record = Record(key: Bytes, firstLen: Bytes, first: Bytes, secondLen: Bytes, second: Bytes)

  /** The records of a message behind their number. */
  datatype RecordList = RecordList(count: Bytes, records: seq<Record>)

  datatype Message = Message(
    header: Bytes, accountCount: Bytes, accounts: seq<Bytes>, blockhash: Bytes, instructions: RecordList)

  /** A versioned message has a prefix byte and lookups. */
  datatype Body = Legacy(message: Message) | Versioned(version: byte, message: Message, lookups: RecordList)

  /** A transaction in the documented layout. */
  datatype Transaction = Transaction(signatureCount: Bytes, signatures: seq<Bytes>, body: Body)

  /** The bytes are a compact length for `n`, the shortest or a longer one. */
  ghost predicate Announces(len: Bytes, n: nat) {
    ShortAt(len, 0) == Some(Cursor(n, |len|))
  }

  ghost predicate Blocks(count: Bytes, parts: seq<Bytes>, size: nat) {
    Announces(count, |parts|) && AllOfSize(parts, size)
  }

  ghost predicate AllOfSize(parts: seq<Bytes>, size: nat) {
    forall i :: 0 <= i < |parts| ==> |parts[i]| == size
  }

  ghost predicate IsRecord(r: Record, fixed: nat) {
    |r.key| == fixed && Announces(r.firstLen, |r.first|) && Announces(r.secondLen, |r.second|)
  }

  ghost predicate AllRecords(records: seq<Record>, fixed: nat) {
    forall i :: 0 <= i < |records| ==> IsRecord(records[i], fixed)
  }

  ghost predicate IsRecordList(list: RecordList, fixed: nat) {
    Announces(list.count, |list.records|) && AllRecords(list.records, fixed)
  }

  ghost predicate IsMessage(m: Message) {
    && |m.header| == 3 && Blocks(m.accountCount, m.accounts, 32) && |m.blockhash| == 32
    && IsRecordList(m.instructions, 1)
  }

  /** A legacy message starts with a byte below 128, its number of required signatures. */
  ghost predicate IsBody(body: Body) {
    && IsMessage(body.message)
    && match body
       case Legacy(m) => AsNat(m.header[0]) < 128
       case Versioned(version, _, lookups) => AsNat(version) >= 128 && IsRecordList(lookups, 32)
  }

  ghost predicate IsTransaction(t: Transaction) {
    Blocks(t.signatureCount, t.signatures, 64) && IsBody(t.body)
  }

  function PrintRecord(r: Record): Bytes {
    r.key + (r.firstLen + (r.first + (r.secondLen + r.second)))
  }

  function PrintRecords(records: seq<Record>): Bytes {
    if records == [] then [] else PrintRecord(records[0]) + PrintRecords(records[1..])
  }

  function PrintList(list: RecordList): Bytes {
    list.count + PrintRecords(list.records)
  }

  function PrintMessage(m: Message): Bytes {
    m.header + (m.accountCount + (Concat(m.accounts) + (m.blockhash + PrintList(m.instructions))))
  }

  function PrintBody(body: Body): Bytes {
    match body
    case Legacy(m) => PrintMessage(m)
    case Versioned(version, m, lookups) => [version] + (PrintMessage(m) + PrintList(lookups))
  }

  function PrintTx(t: Transaction): Bytes {
    t.signatureCount + (Concat(t.signatures) + PrintBody(t.body))
  }

  // ---- Lengths ----

  /** The shortest length is one, for every 16-bit number. */
  lemma ShortestAnnounces(n: nat)
    requires n < 0x1_0000
    ensures Announces(CompactLen(n), n)
  {
    hide ShortAt, CompactLen;
    assert CompactLen(n)[0..|CompactLen(n)|] == CompactLen(n);
    ShortOfCompactLen(CompactLen(n), 0, n);
  }

  /** A length is read wherever it stands. */
  lemma AnnouncedAt(data: Bytes, pos: nat, len: Bytes, n: nat)
    requires Announces(len, n) && StandsAt(data, pos, len)
    ensures ShortAt(data, pos) == Some(Cursor(n, pos + |len|))
  {
    hide ShortAt;
    forall i | 0 <= i < |len| ensures SameByte(len, data, i, pos) {
      assert len[i] == data[pos..pos + |len|][i];
    }
    ShortLocal(len, data, 0, pos, |len|);
  }

  /** What is read as a length is one. */
  lemma ReadAnnounces(data: Bytes, pos: nat) returns (len: Bytes)
    requires ShortAt(data, pos).Some?
    ensures var c := ShortAt(data, pos).value;
      Announces(len, c.value) && StandsAt(data, pos, len) && pos + |len| == c.pos
  {
    hide ShortAt;
    var c := ShortAt(data, pos).value;
    len := data[pos..c.pos];
    var delta := 0 - pos;
    forall i | pos <= i < c.pos ensures SameByte(data, len, i, delta) {}
    ShortLocal(data, len, pos, delta, c.pos);
  }

  // ---- Blocks of one size ----

  lemma {:induction false} BlocksSize(parts: seq<Bytes>, size: nat)
    requires AllOfSize(parts, size)
    ensures |Concat(parts)| == size * |parts|
    decreases |parts|
  {
    if parts != [] { BlocksSize(parts[1..], size); }
  }

  lemma {:induction false} CutBlocks(data: Bytes, pos: nat, size: nat, count: nat) returns (parts: seq<Bytes>)
    requires pos + size * count <= |data|
    ensures |parts| == count && AllOfSize(parts, size) && StandsAt(data, pos, Concat(parts))
    decreases count
  {
    if count == 0 {
      parts := [];
    } else {
      hide StandsAt;
      MulStep(count - 1, size);
      var rest := CutBlocks(data, pos + size, size, count - 1);
      Standing(data, pos, pos + size);
      parts := [data[pos..pos + size]] + rest;
      assert parts[1..] == rest;
      StandsAtSplit(data, pos, parts[0], Concat(rest));
    }
  }

  // ---- Records ----

  /** A length and the bytes it announces are skipped in full. */
  lemma LengthThenBytes(data: Bytes, pos: nat, len: Bytes, s: Bytes)
    requires Announces(len, |s|) && StandsAt(data, pos, len) && StandsAt(data, pos + |len|, s)
    ensures ShortAt(data, pos).Some?
    ensures var c := ShortAt(data, pos).value; c.pos + c.value == pos + |len| + |s|
  {
    hide ShortAt, StandsAt;
    AnnouncedAt(data, pos, len, |s|);
  }

  lemma RecordRoundTrip(data: Bytes, pos: nat, r: Record, fixed: nat)
    requires IsRecord(r, fixed) && StandsAt(data, pos, PrintRecord(r))
    ensures RecordEnd(data, pos, fixed) == Some(pos + |PrintRecord(r)|)
  {
    hide ShortAt, StandsAt, Announces;
    RecordParts(data, pos, r);
    LengthThenBytes(data, pos + |r.key|, r.firstLen, r.first);
    LengthThenBytes(data, pos + |r.key| + |r.firstLen| + |r.first|, r.secondLen, r.second);
  }

  /** A record stands where its parts stand one after the other. */
  lemma RecordParts(data: Bytes, pos: nat, r: Record)
    ensures var p := pos + |r.key|;
      var q := p + |r.firstLen| + |r.first|;
      StandsAt(data, pos, PrintRecord(r)) <==>
        && StandsAt(data, pos, r.key)
        && StandsAt(data, p, r.firstLen) && StandsAt(data, p + |r.firstLen|, r.first)
        && StandsAt(data, q, r.secondLen) && StandsAt(data, q + |r.secondLen|, r.second)
  {
    hide StandsAt;
    var p := pos + |r.key|;
    var q := p + |r.firstLen| + |r.first|;
    var last := r.secondLen + r.second;
    StandsAtSplit(data, pos, r.key, r.firstLen + (r.first + last));
    StandsAtSplit(data, p, r.firstLen, r.first + last);
    StandsAtSplit(data, p + |r.firstLen|, r.first, last);
    StandsAtSplit(data, q, r.secondLen, r.second);
  }

  lemma RecordParsed(data: Bytes, pos: nat, fixed: nat) returns (r: Record)
    requires RecordEnd(data, pos, fixed).Some? && RecordEnd(data, pos, fixed).value <= |data|
    ensures IsRecord(r, fixed) && StandsAt(data, pos, PrintRecord(r))
  {
    hide ShortAt, StandsAt, Announces;
    var a := ShortAt(data, pos + fixed).value;
    var b := ShortAt(data, a.pos + a.value).value;
    var firstLen := ReadAnnounces(data, pos + fixed);
    var secondLen := ReadAnnounces(data, a.pos + a.value);
    Standing(data, pos, pos + fixed);
    Standing(data, a.pos, a.pos + a.value);
    Standing(data, b.pos, b.pos + b.value);
    r := Record(data[pos..pos + fixed], firstLen, data[a.pos..a.pos + a.value],
                secondLen, data[b.pos..b.pos + b.value]);
    RecordParts(data, pos, r);
  }

  lemma {:induction false} RecordsRoundTrip(data: Bytes, pos: nat, records: seq<Record>, fixed: nat)
    requires AllRecords(records, fixed) && StandsAt(data, pos, PrintRecords(records))
    ensures SkipRecords(data, pos, |records|, fixed) == Some(pos + |PrintRecords(records)|)
    decreases |records|
  {
    hide RecordEnd, StandsAt, PrintRecord, IsRecord;
    if records != [] {
      var size := |PrintRecord(records[0])|;
      StandsAtSplit(data, pos, PrintRecord(records[0]), PrintRecords(records[1..]));
      RecordRoundTrip(data, pos, records[0], fixed);
      RecordsRoundTrip(data, pos + size, records[1..], fixed);
    }
  }

  lemma {:induction false} RecordsParsed(data: Bytes, pos: nat, count: nat, fixed: nat)
    returns (records: seq<Record>)
    requires SkipRecords(data, pos, count, fixed).Some? && SkipRecords(data, pos, count, fixed).value <= |data|
    ensures |records| == count && AllRecords(records, fixed) && StandsAt(data, pos, PrintRecords(records))
    decreases count
  {
    hide RecordEnd, StandsAt, PrintRecord, PrintRecords, IsRecord, AllRecords, SkipRecords;
    records := [];
    NoRecords(data, pos, fixed);
    if count > 0 {
      var end := SkipFirst(data, pos, count, fixed);
      var first := RecordParsed(data, pos, fixed);
      RecordRoundTrip(data, pos, first, fixed);
      var rest := RecordsParsed(data, end, count - 1, fixed);
      records := [first] + rest;
      RecordsJoined(data, pos, first, rest, fixed);
    }
  }

  lemma NoRecords(data: Bytes, pos: nat, fixed: nat)
    ensures AllRecords([], fixed)
    ensures pos <= |data| ==> StandsAt(data, pos, PrintRecords([]))
  {}

  lemma SkipFirst(data: Bytes, pos: nat, count: nat, fixed: nat) returns (end: nat)
    requires SkipRecords(data, pos, count, fixed).Some? && count > 0
    ensures RecordEnd(data, pos, fixed) == Some(end)
    ensures SkipRecords(data, end, count - 1, fixed) == SkipRecords(data, pos, count, fixed)
    ensures end <= SkipRecords(data, pos, count, fixed).value
  {
    hide RecordEnd;
    end := RecordEnd(data, pos, fixed).value;
  }

  lemma RecordsJoined(data: Bytes, pos: nat, first: Record, rest: seq<Record>, fixed: nat)
    requires IsRecord(first, fixed) && AllRecords(rest, fixed)
    requires StandsAt(data, pos, PrintRecord(first))
    requires StandsAt(data, pos + |PrintRecord(first)|, PrintRecords(rest))
    ensures AllRecords([first] + rest, fixed) && StandsAt(data, pos, PrintRecords([first] + rest))
  {
    hide StandsAt, PrintRecord, IsRecord;
    assert ([first] + rest)[1..] == rest;
    StandsAtSplit(data, pos, PrintRecord(first), PrintRecords(rest));
  }

  /** A list stands where its number and its records stand, and ends where the parser skips to. */
  lemma ListRoundTrip(data: Bytes, pos: nat, list: RecordList, fixed: nat)
    requires IsRecordList(list, fixed) && StandsAt(data, pos, PrintList(list))
    ensures ShortAt(data, pos).Some?
    ensures var c := ShortAt(data, pos).value;
      SkipRecords(data, c.pos, c.value, fixed) == Some(pos + |PrintList(list)|)
  {
    hide ShortAt, StandsAt, SkipRecords, PrintRecords, Announces, AllRecords;
    StandsAtSplit(data, pos, list.count, PrintRecords(list.records));
    AnnouncedAt(data, pos, list.count, |list.records|);
    RecordsRoundTrip(data, pos + |list.count|, list.records, fixed);
  }

  lemma ListParsed(data: Bytes, pos: nat, fixed: nat) returns (list: RecordList)
    requires ShortAt(data, pos).Some?
    requires var c := ShortAt(data, pos).value;
      SkipRecords(data, c.pos, c.value, fixed).Some? && SkipRecords(data, c.pos, c.value, fixed).value <= |data|
    ensures IsRecordList(list, fixed) && StandsAt(data, pos, PrintList(list))
  {
    hide ShortAt, StandsAt, SkipRecords, PrintRecords, Announces, AllRecords;
    var c := ShortAt(data, pos).value;
    var count := ReadAnnounces(data, pos);
    var records := RecordsParsed(data, c.pos, c.value, fixed);
    list := RecordList(count, records);
    StandsAtSplit(data, pos, count, PrintRecords(records));
  }

  // ---- Messages ----

  lemma MessageParts(data: Bytes, pos: nat, m: Message)
    requires |m.header| == 3 && |m.blockhash| == 32 && AllOfSize(m.accounts, 32)
    ensures var p := pos + 3 + |m.accountCount|;
      var q := p + 32 * |m.accounts|;
      && pos + |PrintMessage(m)| == q + 32 + |PrintList(m.instructions)|
      && (StandsAt(data, pos, PrintMessage(m)) <==>
        && StandsAt(data, pos, m.header) && StandsAt(data, pos + 3, m.accountCount)
        && StandsAt(data, p, Concat(m.accounts)) && StandsAt(data, q, m.blockhash)
        && StandsAt(data, q + 32, PrintList(m.instructions)))
  {
    hide StandsAt, Concat, PrintList, AllOfSize;
    BlocksSize(m.accounts, 32);
    var p := pos + 3 + |m.accountCount|;
    var q := p + 32 * |m.accounts|;
    var hashOn := m.blockhash + PrintList(m.instructions);
    var accountsOn := Concat(m.accounts) + hashOn;
    StandsAtSplit(data, pos, m.header, m.accountCount + accountsOn);
    StandsAtSplit(data, pos + 3, m.accountCount, accountsOn);
    StandsAtSplit(data, p, Concat(m.accounts), hashOn);
    StandsAtSplit(data, q, m.blockhash, PrintList(m.instructions));
  }

  lemma MessageRoundTrip(data: Bytes, pos: nat, m: Message)
    requires IsMessage(m) && StandsAt(data, pos, PrintMessage(m))
    ensures MessageEnd(data, pos) == Some(pos + |PrintMessage(m)|)
    ensures pos < |data| && data[pos] == m.header[0]
  {
    hide ShortAt, StandsAt, SkipRecords, PrintList, PrintMessage, Announces, AllOfSize, IsRecordList, Concat;
    MessageParts(data, pos, m);
    FirstByte(data, pos, m.header);
    AnnouncedAt(data, pos + 3, m.accountCount, |m.accounts|);
    ListRoundTrip(data, pos + 3 + |m.accountCount| + 32 * |m.accounts| + 32, m.instructions, 1);
  }

  lemma MessageParsed(data: Bytes, pos: nat) returns (m: Message)
    requires MessageEnd(data, pos).Some? && MessageEnd(data, pos).value <= |data|
    ensures IsMessage(m) && StandsAt(data, pos, PrintMessage(m))
  {
    hide ShortAt, StandsAt, SkipRecords, PrintList, PrintMessage, Announces, AllOfSize, IsRecordList, Concat;
    var c := ShortAt(data, pos + 3).value;
    var q := c.pos + 32 * c.value;
    var count := ReadAnnounces(data, pos + 3);
    Standing(data, pos, pos + 3);
    var accounts := CutBlocks(data, c.pos, 32, c.value);
    Standing(data, q, q + 32);
    var instructions := ListParsed(data, q + 32, 1);
    m := Message(data[pos..pos + 3], count, accounts, data[q..q + 32], instructions);
    MessageParts(data, pos, m);
  }

  // ---- Transactions ----

  /** Where the body of a transaction ends. */
  function BodyEnd(data: Bytes, pos: nat): Option<nat> {
    if pos >= |data| then None
    else if HighBit(data[pos]) then
      match MessageEnd(data, pos + 1)
      case None => None
      case Some(p) => LookupsEnd(data, p)
    else MessageEnd(data, pos)
  }

  lemma BodyRoundTrip(data: Bytes, pos: nat, body: Body)
    requires IsBody(body) && StandsAt(data, pos, PrintBody(body))
    ensures BodyEnd(data, pos) == Some(pos + |PrintBody(body)|)
  {
    hide ShortAt, StandsAt, SkipRecords, MessageEnd, PrintMessage, PrintList, IsMessage, IsRecordList, AsNat;
    match body
    case Legacy(m) => MessageRoundTrip(data, pos, m);
    case Versioned(version, m, lookups) =>
      StandsAtSplit(data, pos, [version], PrintMessage(m) + PrintList(lookups));
      StandsAtSplit(data, pos + 1, PrintMessage(m), PrintList(lookups));
      FirstByte(data, pos, [version]);
      MessageRoundTrip(data, pos + 1, m);
      ListRoundTrip(data, pos + 1 + |PrintMessage(m)|, lookups, 32);
  }

  lemma BodyParsed(data: Bytes, pos: nat) returns (body: Body)
    requires BodyEnd(data, pos).Some? && BodyEnd(data, pos).value <= |data|
    ensures IsBody(body) && StandsAt(data, pos, PrintBody(body))
  {
    hide ShortAt, StandsAt, SkipRecords, MessageEnd, PrintMessage, PrintList, IsMessage, IsRecordList, AsNat;
    if HighBit(data[pos]) {
      var m := MessageParsed(data, pos + 1);
      MessageRoundTrip(data, pos + 1, m);
      var lookups := ListParsed(data, MessageEnd(data, pos + 1).value, 32);
      body := Versioned(data[pos], m, lookups);
      Standing(data, pos, pos + 1);
      assert data[pos..pos + 1] == [data[pos]];
      StandsAtSplit(data, pos, [data[pos]], PrintMessage(m) + PrintList(lookups));
      StandsAtSplit(data, pos + 1, PrintMessage(m), PrintList(lookups));
    } else {
      var m := MessageParsed(data, pos);
      MessageRoundTrip(data, pos, m);
      body := Legacy(m);
    }
  }

  lemma TxParts(data: Bytes, pos: nat, t: Transaction)
    requires AllOfSize(t.signatures, 64)
    ensures var p := pos + |t.signatureCount|;
      var q := p + 64 * |t.signatures|;
      && pos + |PrintTx(t)| == q + |PrintBody(t.body)|
      && (StandsAt(data, pos, PrintTx(t)) <==>
        && StandsAt(data, pos, t.signatureCount) && StandsAt(data, p, Concat(t.signatures))
        && StandsAt(data, q, PrintBody(t.body)))
  {
    hide StandsAt, Concat, PrintBody, AllOfSize;
    BlocksSize(t.signatures, 64);
    StandsAtSplit(data, pos, t.signatureCount, Concat(t.signatures) + PrintBody(t.body));
    StandsAtSplit(data, pos + |t.signatureCount|, Concat(t.signatures), PrintBody(t.body));
  }

  /** A transaction, wherever it stands, is measured in full: its length is recovered from its bytes
      alone. */
  lemma TxRoundTrip(data: Bytes, pos: nat, t: Transaction)
    requires IsTransaction(t) && StandsAt(data, pos, PrintTx(t))
    ensures TxLenAt(data, pos) == Some(|PrintTx(t)|)
  {
    hide ShortAt, StandsAt, MessageEnd, LookupsEnd, PrintBody, PrintTx, IsBody, Announces, AllOfSize, HighBit;
    TxParts(data, pos, t);
    AnnouncedAt(data, pos, t.signatureCount, |t.signatures|);
    BodyRoundTrip(data, pos + |t.signatureCount| + 64 * |t.signatures|, t.body);
    FitsIn(data, pos, PrintTx(t));
  }

  /** What is measured is a transaction. */
  lemma TxParsed(data: Bytes, pos: nat) returns (t: Transaction)
    requires TxLenAt(data, pos).Some?
    ensures IsTransaction(t) && StandsAt(data, pos, PrintTx(t))
  {
    hide ShortAt, StandsAt, MessageEnd, LookupsEnd, PrintBody, PrintTx, IsBody, Announces, AllOfSize, HighBit;
    var c := ShortAt(data, pos).value;
    var count := ReadAnnounces(data, pos);
    var signatures := CutBlocks(data, c.pos, 64, c.value);
    var body := BodyParsed(data, c.pos + 64 * c.value);
    t := Transaction(count, signatures, body);
    TxParts(data, pos, t);
  }

  /** The parser measures `n` bytes exactly where a transaction of `n` bytes stands. */
  lemma TxLenExactly(data: Bytes, pos: nat, n: nat)
    ensures TxLenAt(data, pos) == Some(n) <==>
      exists t :: IsTransaction(t) && |PrintTx(t)| == n && StandsAt(data, pos, PrintTx(t))
  {
    hide TxLenAt, IsTransaction, PrintTx, StandsAt;
    if TxLenAt(data, pos).Some? {
      var t := TxParsed(data, pos);
      TxRoundTrip(data, pos, t);
    }
    if t :| IsTransaction(t) && |PrintTx(t)| == n && StandsAt(data, pos, PrintTx(t)) {
      TxRoundTrip(data, pos, t);
    }
  }

  /** The byte strings that an entry may carry are exactly the transactions laid out so. */
  lemma IsTxExactly(tx: Bytes)
    ensures IsTx(tx) <==> exists t :: IsTransaction(t) && PrintTx(t) == tx
  {
    hide TxLenAt, IsTransaction, PrintTx;
    TxLenExactly(tx, 0, |tx|);
    if t :| IsTransaction(t) && PrintTx(t) == tx {
      assert tx[0..|tx|] == tx;
    }
    if t :| IsTransaction(t) && |PrintTx(t)| == |tx| && StandsAt(tx, 0, PrintTx(t)) {
      assert tx[0..|tx|] == tx;
    }
  }

  lemma FitsIn(data: Bytes, pos: nat, s: Bytes)
    requires StandsAt(data, pos, s)
    ensures pos + |s| <= |data|
  {}
}
