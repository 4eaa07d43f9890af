/** Compact lengths: `short_vec.rs`, and little-endian integers. */
module CompactLength {
  import opened Arithmetic
  import opened Gf256

  /** The low seven bits. */
  function Low7(b: byte): (n: nat)
    ensures n == AsNat(b) % 128
  {
    (b & 0x7F) as int
  }

  /** The high bit: another group of a length follows, or a message is versioned. */
  predicate HighBit(b: byte)
    ensures HighBit(b) <==> AsNat(b) >= 128
  {
    b & 0x80 != 0
  }

  /** The length `n` in groups of seven bits, low group first. */
  function CompactLen(n: nat): (r: Bytes)
    ensures |r| >= 1
  {
    if n < 128 then [ToByte(n)]
    else [ToByte(n % 128 + 128)] + CompactLen(n / 128)
  }

  /** How many bytes `decode_len` reads. */
  function LenCount(bytes: Bytes): (k: nat)
    ensures k <= |bytes|
  {
    if bytes == [] then 0
    else if HighBit(bytes[0]) then 1 + LenCount(bytes[1..])
    else 1
  }

  /** The number that the groups of seven bits spell. */
  function LenValue(bytes: Bytes): nat {
    if bytes == [] then 0
    else Low7(bytes[0]) + if HighBit(bytes[0]) then 128 * LenValue(bytes[1..]) else 0
  }

  lemma SetHighBit(b: byte)
    requires AsNat(b) < 128
    ensures AsNat(b | 0x80) == AsNat(b) + 128
  {}

  method EncodeLen(len: nat) returns (buf: Bytes)
    requires len < TWO_64
    ensures buf == CompactLen(len)
  {
    hide ToByte, AsNat;
    buf := [];
    var val := len;
    while true
      invariant buf + CompactLen(val) == CompactLen(len)
      decreases val
    {
      var low := ToByte(val % 128);
      ghost var group := val;
      val := val / 128;
      if val > 0 {
        SetHighBit(low);
        ByteByValue(low | 0x80, ToByte(group % 128 + 128));
        buf := buf + [low | 0x80];
      } else {
        buf := buf + [low];
        return;
      }
    }
  }

  /** `n << (7 * k)`, before any bit is cut off. */
  function Shifted(n: nat, k: nat): nat {
    n * Pow2(7 * k)
  }

  /** Group `k` in place in a 64-bit length. An optimized build takes the shift modulo 64. */
  function GroupInPlace(low: nat, k: nat): nat {
    low * Pow2((7 * k) % 64) % TWO_64
  }

  /** The OR of the groups from group `k` on. */
  function OrGroups(bytes: Bytes, k: nat): nat {
    if bytes == [] then 0
    else Or(GroupInPlace(Low7(bytes[0]), k), if HighBit(bytes[0]) then OrGroups(bytes[1..], k + 1) else 0)
  }

  /** Reads a compact length. Up to ten groups fit their places in a 64-bit length; the shift of a
      later one wraps, and its bits are mixed into those of the first groups. */
  method DecodeLen(bytes: Bytes) returns (len: nat, bytesRead: nat)
    ensures len == OrGroups(bytes, 0)
    ensures LenCount(bytes) <= 10 ==> len == LenValue(bytes) % TWO_64
    ensures bytesRead == LenCount(bytes)
  {
    hide Low7, AsNat, HighBit, Or, GroupInPlace, Shifted;
    if LenCount(bytes) <= 10 {
      OrGroupsIsValue(bytes, 0);
      ShiftedUnit(LenValue(bytes));
    }
    len, bytesRead := 0, 0;
    OrZero(OrGroups(bytes, 0));
    while bytesRead < |bytes|
      invariant bytesRead <= |bytes|
      invariant Or(len, OrGroups(bytes[bytesRead..], bytesRead)) == OrGroups(bytes, 0)
      invariant bytesRead + LenCount(bytes[bytesRead..]) == LenCount(bytes)
    {
      var i := bytesRead;
      var b := bytes[i];
      ghost var rest := bytes[i + 1..];
      assert bytes[i..][1..] == rest;
      OrAssoc(len, GroupInPlace(Low7(b), i), OrGroups(rest, i + 1));
      OrZero(GroupInPlace(Low7(b), i));
      len := Or(len, GroupInPlace(Low7(b), i));
      bytesRead := i + 1;
      if !HighBit(b) {
        return;
      }
    }
    OrZero(len);
  }

  lemma ShiftedUnit(n: nat)
    ensures Shifted(n, 0) == n && forall k :: Shifted(0, k) == 0
  {}

  lemma ShiftedSplit(low: nat, high: nat, k: nat)
    ensures Shifted(low + 128 * high, k) == Shifted(low, k) + Shifted(high, k + 1)
  {
    var p := Pow2(7 * k);
    SevenMore(k);
    assert high * (128 * p) == 128 * high * p;
  }

  lemma SevenMore(k: nat)
    ensures Pow2(7 * (k + 1)) == 128 * Pow2(7 * k)
  {
    Pow2Add(7, 7 * k);
    assert Pow2(7) == 128;
  }

  /** Up to ten groups do not overlap, so their OR is their sum, cut off at 64 bits. */
  lemma {:induction false} OrGroupsIsValue(bytes: Bytes, k: nat)
    requires k + LenCount(bytes) <= 10
    ensures OrGroups(bytes, k) == Shifted(LenValue(bytes), k) % TWO_64
    decreases |bytes|
  {
    hide Low7, AsNat, HighBit, Or, Shifted;
    ShiftedUnit(0);
    if bytes != [] {
      var low := Low7(bytes[0]);
      assert GroupInPlace(low, k) == Shifted(low, k) % TWO_64 by { GroupShift(low, k); }
      OrZero(GroupInPlace(low, k));
      if HighBit(bytes[0]) {
        var high := LenValue(bytes[1..]);
        OrGroupsIsValue(bytes[1..], k + 1);
        ShiftedSplit(low, high, k);
        if k < 9 {
          OrOfGroups(low, high, k);
        }
      }
    }
  }

  lemma GroupShift(low: nat, k: nat)
    requires k <= 9
    ensures GroupInPlace(low, k) == Shifted(low, k) % TWO_64
  {
    hide Pow2;
  }

  lemma OrOfGroups(low: nat, high: nat, k: nat)
    requires low < 128 && k < 9
    ensures Or(Shifted(low, k) % TWO_64, Shifted(high, k + 1) % TWO_64)
      == (Shifted(low, k) + Shifted(high, k + 1)) % TWO_64
  {
    hide Pow2, Or;
    var p, w := Pow2(7 * (k + 1)), Pow2(64 - 7 * (k + 1));
    SevenMore(k);
    Pow2Of64();
    Pow2Add(64 - 7 * (k + 1), 7 * (k + 1));
    BelowMultiple(low, Pow2(7 * k), 128);
    OrBelowPlace(Shifted(low, k), high, w, 7 * (k + 1));
  }

  /** Bits below a place, and a number at that place cut off further up. */
  lemma OrBelowPlace(a: nat, high: nat, w: nat, place: nat)
    requires a < Pow2(place) && w > 0
    ensures w * Pow2(place) > 0
    ensures Or(a % (w * Pow2(place)), (high * Pow2(place)) % (w * Pow2(place)))
      == (a + high * Pow2(place)) % (w * Pow2(place))
  {
    hide Pow2, Or;
    CutAbove(a, high, w, Pow2(place));
    OrDisjoint(a, high % w, place);
  }

  lemma CutAbove(a: nat, high: nat, w: nat, p: nat)
    requires a < p && w > 0
    ensures w * p > 0
    ensures a % (w * p) == a
    ensures (high * p) % (w * p) == (high % w) * p
    ensures (a + high * p) % (w * p) == a + (high % w) * p
  {
    var q, r := high / w, high % w;
    BelowMultiple(r, p, w);
    MulMonotone(1, w, p);
    SmallMod(a, w * p);
    ModScaled(high, w, p);
    ScaledParts(high, q, r, w, p);
    QuotientUnique(q, r * p + a, w * p);
  }

  /** A lone 1 in group `k`. */
  function LateOne(k: nat): Bytes {
    if k == 0 then [0x01] else [0x80] + LateOne(k - 1)
  }

  lemma {:induction false} LateOneGroups(k: nat, j: nat)
    ensures LenCount(LateOne(k)) == k + 1 && LenValue(LateOne(k)) == Shifted(1, k)
    ensures OrGroups(LateOne(k), j) == GroupInPlace(1, j + k)
  {
    hide Or, Pow2, AsNat, Low7, HighBit, Shifted, GroupInPlace;
    GroupBytes(j);
    OrZero(GroupInPlace(1, j + k));
    ShiftedUnit(1);
    ShiftedUnit(0);
    if k > 0 {
      LateOneGroups(k - 1, j + 1);
      assert LateOne(k)[1..] == LateOne(k - 1);
      OnePlaceUp(k - 1);
    }
  }

  lemma OnePlaceUp(k: nat)
    ensures Shifted(1, k + 1) == 128 * Shifted(1, k)
  {
    SevenMore(k);
  }

  lemma GroupBytes(j: nat)
    ensures Low7(0x80) == 0 && HighBit(0x80) && Low7(0x01) == 1 && !HighBit(0x01)
    ensures GroupInPlace(0, j) == 0
  {}

  /** The ten-group bound is needed: the place of any later group is beyond 64 bits, but its shift
      wraps, so a 1 there is not cut off but read as a smaller power of two. */
  lemma LateOneMisread(k: nat)
    requires k >= 10
    ensures LenCount(LateOne(k)) == k + 1 > 10
    ensures LenValue(LateOne(k)) % TWO_64 == 0
    ensures OrGroups(LateOne(k), 0) == Pow2((7 * k) % 64) != 0
  {
    hide Or, LenValue, LenCount, OrGroups, Pow2, LateOne;
    LateOneGroups(k, 0);
    Pow2Of64();
    Pow2Add(7 * k - 64, 64);
    QuotientUnique(Pow2(7 * k - 64), 0, TWO_64);
    Pow2Add(64 - (7 * k) % 64, (7 * k) % 64);
    assert Pow2(64 - (7 * k) % 64) >= 2 by { TwoDivides(64 - (7 * k) % 64); }
    MulMonotone(2, Pow2(64 - (7 * k) % 64), Pow2((7 * k) % 64));
    SmallMod(Pow2((7 * k) % 64), TWO_64);
  }

  lemma TwoDivides(k: nat)
    requires k > 0
    ensures Pow2(k) >= 2
  {}

  lemma {:induction false} CompactLenSize(n: nat, k: nat)
    requires n < Pow2(7 * k) && k > 0
    ensures |CompactLen(n)| <= k
    decreases k
  {
    SevenMore(k - 1);
    if n >= 128 {
      CompactLenSize(n / 128, k - 1);
    }
  }

  /** The encoding, group by group: group `k` holds the seven bits of the length at its place, and
      every group but the last has its high bit set. */
  lemma {:induction false} CompactLenGroups(n: nat, k: nat)
    requires k < |CompactLen(n)|
    ensures Low7(CompactLen(n)[k]) == (n / Pow2(7 * k)) % 128
    ensures HighBit(CompactLen(n)[k]) <==> k + 1 < |CompactLen(n)|
    decreases k
  {
    hide ToByte, AsNat, Low7, HighBit, Pow2;
    FirstGroup(n);
    UnitPower();
    if k > 0 {
      hide CompactLen;
      CompactLenGroups(n / 128, k - 1);
      SevenMore(k - 1);
      DropDigit(n, 128, Pow2(7 * (k - 1)));
    }
  }

  lemma FirstGroup(n: nat)
    ensures Low7(CompactLen(n)[0]) == n % 128
    ensures HighBit(CompactLen(n)[0]) <==> |CompactLen(n)| > 1
    ensures |CompactLen(n)| > 1 <==> n >= 128
    ensures n >= 128 ==> CompactLen(n)[1..] == CompactLen(n / 128)
  {
    hide ToByte, AsNat, Low7, HighBit;
    OneGroup(n % 128);
  }

  /** A group with and without its high bit. */
  lemma OneGroup(low: nat)
    requires low < 128
    ensures Low7(ToByte(low)) == low && !HighBit(ToByte(low))
    ensures Low7(ToByte(low + 128)) == low && HighBit(ToByte(low + 128))
  {
    hide ToByte, AsNat, Low7, HighBit;
  }

  /** There are no more groups than needed. */
  lemma {:induction false} CompactLenFits(n: nat)
    ensures n < Pow2(7 * |CompactLen(n)|)
    ensures |CompactLen(n)| > 1 ==> n >= Pow2(7 * (|CompactLen(n)| - 1))
    decreases n
  {
    hide ToByte, Pow2;
    UnitPower();
    SevenMore(0);
    if n >= 128 {
      var size := |CompactLen(n / 128)|;
      CompactLenFits(n / 128);
      SevenMore(size);
      SevenMore(size - 1);
    }
  }

  lemma UnitPower()
    ensures Pow2(0) == 1
  {}

  /** What is read, group by group: up to the first byte without its high bit, or the end; byte `k`
      counts for the seven bits at its place. */
  lemma {:induction false} LenGroups(bytes: Bytes, k: nat)
    requires k < LenCount(bytes)
    ensures (LenValue(bytes) / Pow2(7 * k)) % 128 == Low7(bytes[k])
    ensures k + 1 < LenCount(bytes) ==> HighBit(bytes[k])
    ensures k + 1 == LenCount(bytes) < |bytes| ==> !HighBit(bytes[k])
    decreases k
  {
    hide AsNat, Low7, HighBit, Pow2, LenValue, LenCount;
    UnitPower();
    FirstLenGroup(bytes);
    CountsSome(bytes[1..]);
    if k > 0 {
      LenGroups(bytes[1..], k - 1);
      SevenMore(k - 1);
      DropDigit(LenValue(bytes), 128, Pow2(7 * (k - 1)));
    }
  }

  lemma CountsSome(bytes: Bytes)
    ensures LenCount(bytes) == 0 <==> bytes == []
  {}

  lemma FirstLenGroup(bytes: Bytes)
    requires LenCount(bytes) > 0
    ensures |bytes| > 0 && LenValue(bytes) % 128 == Low7(bytes[0])
    ensures LenCount(bytes) == if HighBit(bytes[0]) then 1 + LenCount(bytes[1..]) else 1
    ensures HighBit(bytes[0]) ==> LenValue(bytes) / 128 == LenValue(bytes[1..])
  {
    hide AsNat, Low7, HighBit;
    if HighBit(bytes[0]) {
      QuotientUnique(LenValue(bytes[1..]), Low7(bytes[0]), 128);
    }
  }

  lemma {:induction false} LenFits(bytes: Bytes)
    ensures LenValue(bytes) < Pow2(7 * LenCount(bytes))
  {
    hide AsNat, Low7, HighBit, Pow2;
    UnitPower();
    if bytes != [] {
      LenFits(bytes[1..]);
      SevenMore(0);
      SevenMore(LenCount(bytes[1..]));
    }
  }

  /** Decoding undoes encoding and stops where the encoding ends, whatever follows. */
  lemma {:induction false} CompactLenRoundTrip(n: nat, rest: Bytes)
    ensures LenValue(CompactLen(n) + rest) == n
    ensures LenCount(CompactLen(n) + rest) == |CompactLen(n)|
    decreases n
  {
    hide ToByte, AsNat, Low7, HighBit;
    var bytes := CompactLen(n) + rest;
    if n >= 128 {
      CompactLenRoundTrip(n / 128, rest);
      assert bytes[1..] == CompactLen(n / 128) + rest;
    }
  }

  /** For every 64-bit length the round trip is within `decode_len`'s domain. */
  lemma EncodedLenDecodes(n: nat, rest: Bytes)
    requires n < TWO_64
    ensures LenCount(CompactLen(n) + rest) <= 10
    ensures OrGroups(CompactLen(n) + rest, 0) == n
  {
    hide Or, Shifted;
    Pow2Of64();
    Pow2Monotone(64, 70);
    CompactLenSize(n, 10);
    CompactLenRoundTrip(n, rest);
    OrGroupsIsValue(CompactLen(n) + rest, 0);
    ShiftedUnit(n);
    SmallMod(n, TWO_64);
  }

  method EncodeThenDecode(n: nat, rest: Bytes) returns (len: nat, bytesRead: nat)
    requires n < TWO_64
    ensures len == n && bytesRead == |CompactLen(n)|
  {
    var buf := EncodeLen(n);
    EncodedLenDecodes(n, rest);
    CompactLenRoundTrip(n, rest);
    len, bytesRead := DecodeLen(buf + rest);
  }

  // ---- Little-endian integers ----

  function LittleEndian(n: nat, k: nat): (r: Bytes)
    ensures |r| == k
  {
    if k == 0 then [] else [ToByte(n % 256)] + LittleEndian(n / 256, k - 1)
  }

  function FromLittleEndian(bytes: Bytes): nat {
    if bytes == [] then 0 else AsNat(bytes[0]) + 256 * FromLittleEndian(bytes[1..])
  }

  lemma EightMore(k: nat)
    ensures Pow2(8 * (k + 1)) == 256 * Pow2(8 * k)
  {
    Pow2Add(8, 8 * k);
    assert Pow2(8) == 256;
  }

  lemma {:induction false} LittleEndianRoundTrip(n: nat, k: nat)
    requires n < Pow2(8 * k)
    ensures FromLittleEndian(LittleEndian(n, k)) == n
    decreases k
  {
    hide ToByte, AsNat;
    if k > 0 {
      EightMore(k - 1);
      hide Pow2;
      LittleEndianRoundTrip(n / 256, k - 1);
      assert LittleEndian(n, k)[1..] == LittleEndian(n / 256, k - 1);
    }
  }

  lemma {:induction false} FromLittleEndianRoundTrip(bytes: Bytes)
    ensures FromLittleEndian(bytes) < Pow2(8 * |bytes|)
    ensures LittleEndian(FromLittleEndian(bytes), |bytes|) == bytes
    decreases |bytes|
  {
    hide ToByte, AsNat;
    if bytes != [] {
      var n, rest := FromLittleEndian(bytes), FromLittleEndian(bytes[1..]);
      EightMore(|bytes| - 1);
      hide Pow2;
      FromLittleEndianRoundTrip(bytes[1..]);
      QuotientUnique(rest, AsNat(bytes[0]), 256);
      ByteByValue(ToByte(n % 256), bytes[0]);
    }
  }

  /** The low byte comes first: byte `k` is digit `k` of the value in base 256. */
  lemma {:induction false} LittleEndianDigits(bytes: Bytes, k: nat)
    requires k < |bytes|
    ensures (FromLittleEndian(bytes) / Pow2(8 * k)) % 256 == AsNat(bytes[k])
    decreases k
  {
    hide AsNat, Pow2;
    var n := FromLittleEndian(bytes);
    QuotientUnique(FromLittleEndian(bytes[1..]), AsNat(bytes[0]), 256);
    UnitPower();
    if k > 0 {
      LittleEndianDigits(bytes[1..], k - 1);
      EightMore(k - 1);
      DropDigit(n, 256, Pow2(8 * (k - 1)));
    }
  }
}
