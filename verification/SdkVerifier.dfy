/** The client-side verifier of the TypeScript SDK, which works on hexadecimal strings. */
module SdkVerifier {
  import opened Options
  import opened Gf256
  import opened Merkle

  // ---- Hexadecimal ----

  function HexDigit(n: nat): char
    requires n < 16
  {
    if n < 10 then '0' + n as char else 'a' + (n - 10) as char
  }

  /** Two lower-case digits a byte, as the server writes digests. */
  function HexEncode(bytes: Bytes): (s: string)
    ensures |s| == 2 * |bytes|
  {
    if bytes == [] then ""
    else [HexDigit(AsNat(bytes[0]) / 16), HexDigit(AsNat(bytes[0]) % 16)] + HexEncode(bytes[1..])
  }

  lemma LowerCaseDigit(n: nat)
    requires n < 16
    ensures HexDigit(n) == "0123456789abcdef"[n]
  {}

  function DigitValue(c: char): (r: Option<nat>)
    ensures r.Some? ==> r.value < 16
  {
    if '0' <= c <= '9' then Some(c as int - '0' as int)
    else if 'a' <= c <= 'f' then Some(c as int - 'a' as int + 10)
    else if 'A' <= c <= 'F' then Some(c as int - 'A' as int + 10)
    else None
  }

  /** The digits of `parseInt` in base 16, of either case. */
  lemma DigitsExactly(c: char, n: nat)
    requires n < 16
    ensures DigitValue(c) == Some(n) <==> c == "0123456789abcdef"[n] || c == "0123456789ABCDEF"[n]
  {}

  /** What `parseInt` skips in front of a number. */
  predicate IsSpace(c: char) {
    || '\t' <= c <= '\r' || c == ' ' || c == '\U{00A0}' || c == '\U{1680}' || '\U{2000}' <= c <= '\U{200A}'
    || c == '\U{2028}' || c == '\U{2029}' || c == '\U{202F}' || c == '\U{205F}' || c == '\U{3000}' || c == '\U{FEFF}'
  }

  /** `parseInt` of a two-character string in base 16, stored into a byte: the longest leading run
      of digits, and zero when there is none. */
  function ParseByte(a: char, b: char): byte {
    if DigitValue(a).Some? then
      if DigitValue(b).Some? then U8(16 * DigitValue(a).value + DigitValue(b).value) else U8(DigitValue(a).value)
    else if DigitValue(b).None? then 0
    else if a == '-' then U8(256 - DigitValue(b).value)
    else if a == '+' || IsSpace(a) then U8(DigitValue(b).value)
    else 0
  }

  /** A pair of digits is their value in base 16; a digit in front of anything else is its own value;
      a digit behind a sign or white space is read with the sign, modulo 256; all else is zero. */
  lemma PairsExactly(a: char, b: char)
    ensures var x, y := DigitValue(a), DigitValue(b);
      && (x.Some? && y.Some? ==> AsNat(ParseByte(a, b)) == 16 * x.value + y.value)
      && (x.Some? && y.None? ==> AsNat(ParseByte(a, b)) == x.value)
      && (x.None? && y.Some? && a == '-' ==> AsNat(ParseByte(a, b)) == (256 - y.value) % 256)
      && (x.None? && y.Some? && a in "+ \t\n\r" ==> AsNat(ParseByte(a, b)) == y.value)
      && (x.None? && y.Some? && '!' <= a <= '~' && a !in "+-" ==> AsNat(ParseByte(a, b)) == 0)
      && (x.None? && y.None? ==> AsNat(ParseByte(a, b)) == 0)
  {
    hide U8, AsNat, DigitValue, IsSpace;
    ZeroByte();
    SpaceCharacters(a);
  }

  lemma SpaceCharacters(c: char)
    ensures c in " \t\n\r" ==> IsSpace(c)
    ensures '!' <= c <= '~' ==> !IsSpace(c)
  {}

  lemma ZeroByte()
    ensures AsNat(0) == 0
  {}

  function BytesOfHex(s: string): (r: Bytes)
    ensures |r| == |s| / 2
    ensures forall i :: 0 <= i < |r| ==> r[i] == ParseByte(s[2 * i], s[2 * i + 1])
  {
    seq(|s| / 2, i requires 0 <= i < |s| / 2 => ParseByte(s[2 * i], s[2 * i + 1]))
  }

  method HexToBytes(hex: string) returns (bytes: Bytes)
    ensures |bytes| == |hex| / 2
    ensures forall k :: 0 <= k < |bytes| ==> bytes[k] == ParseByte(hex[2 * k], hex[2 * k + 1])
    ensures bytes == BytesOfHex(hex)
  {
    hide ParseByte;
    bytes := seq(|hex| / 2, _ => 0);
    for i := 0 to |bytes|
      invariant |bytes| == |hex| / 2
      invariant forall k :: 0 <= k < i ==> bytes[k] == ParseByte(hex[2 * k], hex[2 * k + 1])
    {
      bytes := bytes[i := ParseByte(hex[2 * i], hex[2 * i + 1])];
    }
  }

  method BytesEqual(a: Bytes, b: Bytes) returns (equal: bool)
    ensures equal <==> a == b
  {
    if |a| != |b| { return false; }
    for i := 0 to |a|
      invariant a[..i] == b[..i]
    {
      if a[i] != b[i] { return false; }
    }
    assert a[..|a|] == a && b[..|b|] == b;
    return true;
  }

  function AllBytes(hexes: seq<string>): (r: seq<Bytes>)
    ensures |r| == |hexes|
  {
    seq(|hexes|, i requires 0 <= i < |hexes| => BytesOfHex(hexes[i]))
  }

  method VerifyMerkleProof(h: Hasher, rootHex: string, leafHex: string, proofHexes: seq<string>, index: nat)
    returns (ok: bool)
    ensures ok <==> Fold(h, BytesOfHex(leafHex), AllBytes(proofHexes), index) == BytesOfHex(rootHex)
  {
    hide BytesOfHex;
    var root := HexToBytes(rootHex);
    var hash := HexToBytes(leafHex);
    var idx: nat := index;
    ghost var proof := AllBytes(proofHexes);
    for k := 0 to |proofHexes|
      invariant Fold(h, hash, proof[k..], idx) == Fold(h, BytesOfHex(leafHex), proof, index)
    {
      var sibling := HexToBytes(proofHexes[k]);
      assert proof[k] == sibling && proof[k..][1..] == proof[k + 1..];
      hash := if idx % 2 == 0 then h(hash + sibling) else h(sibling + hash);
      idx := idx / 2;
    }
    ok := BytesEqual(hash, root);
  }

  // ---- The client agrees with the prover ----

  lemma ParseOfDigits(b: byte)
    ensures ParseByte(HexDigit(AsNat(b) / 16), HexDigit(AsNat(b) % 16)) == b
  {
    hide AsNat, U8;
    DigitRoundTrip(AsNat(b) / 16);
    DigitRoundTrip(AsNat(b) % 16);
    hide HexDigit, DigitValue, IsSpace;
    assert AsNat(U8(16 * (AsNat(b) / 16) + AsNat(b) % 16)) == AsNat(b);
    ByteByValue(U8(16 * (AsNat(b) / 16) + AsNat(b) % 16), b);
  }

  lemma DigitRoundTrip(n: nat)
    requires n < 16
    ensures DigitValue(HexDigit(n)) == Some(n)
  {}

  lemma {:induction false} HexEncodeAt(bytes: Bytes, i: nat)
    requires i < |bytes|
    ensures HexEncode(bytes)[2 * i] == HexDigit(AsNat(bytes[i]) / 16)
    ensures HexEncode(bytes)[2 * i + 1] == HexDigit(AsNat(bytes[i]) % 16)
    ensures HexEncode(bytes)[2 * i] == "0123456789abcdef"[AsNat(bytes[i]) / 16]
    ensures HexEncode(bytes)[2 * i + 1] == "0123456789abcdef"[AsNat(bytes[i]) % 16]
    decreases |bytes|
  {
    hide HexDigit, AsNat;
    LowerCaseDigit(AsNat(bytes[i]) / 16);
    LowerCaseDigit(AsNat(bytes[i]) % 16);
    if i > 0 {
      HexEncodeAt(bytes[1..], i - 1);
      assert bytes[1..][i - 1] == bytes[i];
    }
  }

  /** Reading what the server writes gives the bytes back. */
  lemma HexRoundTrip(bytes: Bytes)
    ensures BytesOfHex(HexEncode(bytes)) == bytes
  {
    hide HexEncode, HexDigit, ParseByte, AsNat;
    forall i | 0 <= i < |bytes| ensures BytesOfHex(HexEncode(bytes))[i] == bytes[i] {
      HexEncodeAt(bytes, i);
      ParseOfDigits(bytes[i]);
    }
  }

  function HexAll(proof: seq<Digest>): (r: seq<string>)
    ensures |r| == |proof|
  {
    seq(|proof|, i requires 0 <= i < |proof| => HexEncode(proof[i]))
  }

  /** The client's answer on the hexadecimal forms is the prover's answer on the digests. */
  lemma ClientAgrees(h: Hasher, root: Digest, leaf: Digest, proof: seq<Digest>, index: nat)
    ensures BytesOfHex(HexEncode(root)) == root && BytesOfHex(HexEncode(leaf)) == leaf
    ensures AllBytes(HexAll(proof)) == proof
    ensures Fold(h, BytesOfHex(HexEncode(leaf)), AllBytes(HexAll(proof)), index) == BytesOfHex(HexEncode(root))
      <==> Fold(h, leaf, proof, index) == root
  {
    hide BytesOfHex, HexEncode, Fold;
    HexRoundTrip(root);
    HexRoundTrip(leaf);
    forall i | 0 <= i < |proof| ensures AllBytes(HexAll(proof))[i] == proof[i] {
      HexRoundTrip(proof[i]);
    }
  }

  /** The client accepts the server's proof of every entry of every tree. */
  method FetchAndVerify(h: Hasher, entries: seq<Bytes>, index: nat) returns (ok: bool)
    requires index < |entries|
    ensures ok
  {
    hide BytesOfHex, HexEncode;
    var tree := NewTree(h, entries);
    var proof := Prove(h, tree, index);
    Completeness(h, entries, index);
    ClientAgrees(h, tree.root, tree.leaves[index], proof.value, index);
    ok := VerifyMerkleProof(h, HexEncode(tree.root), HexEncode(tree.leaves[index]), HexAll(proof.value), index);
  }
}
