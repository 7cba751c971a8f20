/**
 * `IndexMappingService`: the document identity codec (a provider id and a
 * document id packed into one Meilisearch document id, in a legacy and a
 * collision-safe "escaped" scheme), the removal of both encodings of an id,
 * and the flat body sent to the engine for a document.
 */
module IndexMapping {
  import opened Php
  import opened Host

  const LegacySeparator: Bytes := "_-_"
  const EscapedPrefix: Bytes := "h_"

  // ---------------------------------------------------------------------------
  // Character classes
  // ---------------------------------------------------------------------------

  /** `[A-Za-z0-9_:-]`, the class of the legacy-id pattern. */
  predicate IsLegacyIdChar(c: Byte) {
    'A' <= c <= 'Z' || 'a' <= c <= 'z' || '0' <= c <= '9' || c == '_' || c == ':' || c == '-'
  }

  /** `[a-f0-9]`, the class `isHexData` accepts. */
  predicate IsLowerHexChar(c: Byte) {
    'a' <= c <= 'f' || '0' <= c <= '9'
  }

  /** The characters Meilisearch accepts in a document id. */
  predicate IsEngineIdChar(c: Byte) {
    'A' <= c <= 'Z' || 'a' <= c <= 'z' || '0' <= c <= '9' || c == '_' || c == '-'
  }

  // ---------------------------------------------------------------------------
  // bin2hex / hex2bin
  // ---------------------------------------------------------------------------

  function HexDigit(n: int): (c: Byte)
    requires 0 <= n < 16
    ensures IsLowerHexChar(c)
  {
    if n < 10 then ('0' as int + n) as char else ('a' as int + n - 10) as char
  }

  /** The value of one hexadecimal digit, either case, as `hex2bin` reads it. */
  function Nibble(c: Byte): Option<int> {
    if '0' <= c <= '9' then Some(c as int - '0' as int)
    else if 'a' <= c <= 'f' then Some(c as int - 'a' as int + 10)
    else if 'A' <= c <= 'F' then Some(c as int - 'A' as int + 10)
    else None
  }

  /** `bin2hex`: two lowercase hexadecimal digits per byte. */
  function Bin2Hex(s: Bytes): (r: Bytes)
    ensures |r| == 2 * |s|
    ensures AllIn(r, IsLowerHexChar)
  {
    if s == [] then []
    else [HexDigit(s[0] as int / 16), HexDigit(s[0] as int % 16)] + Bin2Hex(s[1..])
  }

  /** `hex2bin`: false (None) on an odd length or a non-hexadecimal byte. */
  function Hex2Bin(h: Bytes): Option<Bytes>
    decreases |h|
  {
    if |h| % 2 != 0 then None
    else if h == [] then Some([])
    else
      match (Nibble(h[0]), Nibble(h[1]), Hex2Bin(h[2..]))
      case (Some(hi), Some(lo), Some(rest)) => Some([(hi * 16 + lo) as char] + rest)
      case _ => None
  }

  lemma NibbleOfHexDigit(n: int)
    requires 0 <= n < 16
    ensures Nibble(HexDigit(n)) == Some(n)
  {
  }

  /** A byte is its high nibble times 16 plus its low nibble, and back. */
  lemma ByteNibbles(b: int, hi: int, lo: int)
    requires 0 <= hi < 16 && 0 <= lo < 16
    ensures b == hi * 16 + lo <==> (0 <= b < 256 && hi == b / 16 && lo == b % 16)
  {
  }

  lemma {:induction false} Hex2BinOfBin2Hex(s: Bytes)
    ensures Hex2Bin(Bin2Hex(s)) == Some(s)
    decreases |s|
  {
    if s != [] {
      var h := Bin2Hex(s);
      var b := s[0] as int;
      var hi, lo := b / 16, b % 16;
      assert 0 <= hi < 16 && 0 <= lo < 16;
      ByteNibbles(b, hi, lo);
      assert h == [HexDigit(hi), HexDigit(lo)] + Bin2Hex(s[1..]);
      assert h[2..] == Bin2Hex(s[1..]);
      Hex2BinOfBin2Hex(s[1..]);
      NibbleOfHexDigit(hi);
      NibbleOfHexDigit(lo);
      assert (hi * 16 + lo) as char == s[0];
      assert [s[0]] + s[1..] == s;
    }
  }

  /** A string that `hex2bin` accepts consists of hexadecimal digits only. */
  lemma {:induction false} Hex2BinOnlyHexDigits(h: Bytes, i: int)
    requires Hex2Bin(h).Some? && 0 <= i < |h|
    ensures Nibble(h[i]).Some?
    decreases |h|
  {
    if i >= 2 {
      assert h[2..][i - 2] == h[i];
      Hex2BinOnlyHexDigits(h[2..], i - 2);
    }
  }

  /** Lowercase hex that `hex2bin` decodes is exactly `bin2hex` of the result. */
  lemma {:induction false} Bin2HexOfHex2Bin(h: Bytes)
    requires AllIn(h, IsLowerHexChar) && Hex2Bin(h).Some?
    ensures Bin2Hex(Hex2Bin(h).value) == h
    decreases |h|
  {
    if h != [] {
      assert AllIn(h[2..], IsLowerHexChar) by {
        forall i | 0 <= i < |h[2..]| ensures IsLowerHexChar(h[2..][i]) {
          assert h[2..][i] == h[i + 2];
        }
      }
      Bin2HexOfHex2Bin(h[2..]);
      Hex2BinHead(h);
      var d := Hex2Bin(h).value;
      assert d[1..] == Hex2Bin(h[2..]).value;
      assert Bin2Hex(d) == Bin2Hex([d[0]]) + h[2..] by {
        assert Bin2Hex(d) == [HexDigit(d[0] as int / 16), HexDigit(d[0] as int % 16)] + Bin2Hex(d[1..]);
      }
      assert h == h[..2] + h[2..];
    }
  }

  /** The first byte `hex2bin` decodes from lowercase hex re-encodes to the first two digits. */
  lemma Hex2BinHead(h: Bytes)
    requires AllIn(h, IsLowerHexChar) && Hex2Bin(h).Some? && h != []
    ensures var d := Hex2Bin(h).value;
      && d != [] && Hex2Bin(h[2..]).Some? && d[1..] == Hex2Bin(h[2..]).value
      && Bin2Hex([d[0]]) == h[..2]
  {
    var hi := Nibble(h[0]).value;
    var lo := Nibble(h[1]).value;
    var b := hi * 16 + lo;
    ByteNibbles(b, hi, lo);
    assert HexDigit(hi) == h[0] && HexDigit(lo) == h[1];
    var d := Hex2Bin(h).value;
    assert d == [b as char] + Hex2Bin(h[2..]).value;
    assert Bin2Hex([d[0]]) == [HexDigit(hi), HexDigit(lo)] + Bin2Hex([]) by {
      assert [d[0]][1..] == [];
    }
  }

  // ---------------------------------------------------------------------------
  // Encoding
  // ---------------------------------------------------------------------------

  /** `encodeLegacyDocumentId`: join with ':' then replace every ':' by "_-_". */
  function EncodeLegacyDocumentId(providerId: Bytes, documentId: Bytes): Bytes {
    ReplaceAll(providerId + ":" + documentId, ":", LegacySeparator)
  }

  /** `encodeEscapedDocumentId`: "h_" + hex(provider) + "_" + hex(document). */
  function EncodeEscapedDocumentId(providerId: Bytes, documentId: Bytes): Bytes {
    EscapedPrefix + (Bin2Hex(providerId) + "_" + Bin2Hex(documentId))
  }

  /** `requiresEscapedId`. */
  predicate RequiresEscapedId(providerId: Bytes, documentId: Bytes) {
    Contains(providerId, LegacySeparator) || Contains(documentId, LegacySeparator)
    || !ClassPlusMatch(providerId, IsLegacyIdChar)
    || !ClassPlusMatch(documentId, IsLegacyIdChar)
  }

  /** `encodeDocumentId`. */
  function EncodeDocumentId(providerId: Bytes, documentId: Bytes): Bytes {
    if RequiresEscapedId(providerId, documentId) then EncodeEscapedDocumentId(providerId, documentId)
    else EncodeLegacyDocumentId(providerId, documentId)
  }

  // ---------------------------------------------------------------------------
  // Decoding
  // ---------------------------------------------------------------------------

  /** `strpos($s, $c)` for one byte. */
  function FirstIndex(s: Bytes, c: Byte): (r: Option<nat>)
    ensures r.None? ==> c !in s
    ensures r.Some? ==> r.value < |s| && s[r.value] == c && c !in s[..r.value]
  {
    if s == [] then None
    else if s[0] == c then Some(0)
    else
      match FirstIndex(s[1..], c)
      case None => None
      case Some(i) =>
        assert s[..i + 1] == [s[0]] + s[1..][..i];
        Some(i + 1)
  }

  /** `isHexData`. */
  predicate IsHexData(value: Bytes) {
    value == "" || (|value| % 2 == 0 && ClassPlusMatch(value, IsLowerHexChar))
  }

  /** One half of an escaped id: empty stays empty, anything else goes through `hex2bin`. */
  function DecodeHexField(h: Bytes): Option<Bytes> {
    if h == "" then Some("") else Hex2Bin(h)
  }

  /** `decodeEscapedDocumentId`: the pair, or None (PHP null) when the format does not match. */
  function DecodeEscapedDocumentId(encodedId: Bytes): Option<(Bytes, Bytes)> {
    if !StartsWith(encodedId, EscapedPrefix) then None
    else DecodeEscapedPayload(encodedId[|EscapedPrefix|..])
  }

  /** The part of `decodeEscapedDocumentId` after "h_": split at the first '_' and decode both halves. */
  function DecodeEscapedPayload(payload: Bytes): Option<(Bytes, Bytes)> {
    match FirstIndex(payload, '_')
    case None => None
    case Some(pos) => DecodeHexPair(payload[..pos], payload[pos + 1..])
  }

  function DecodeHexPair(providerHex: Bytes, documentHex: Bytes): Option<(Bytes, Bytes)> {
    if !IsHexData(providerHex) || !IsHexData(documentHex) then None
    else
      var providerId := DecodeHexField(providerHex);
      var documentId := DecodeHexField(documentHex);
      if providerId.None? || documentId.None? then None
      else Some((providerId.value, documentId.value))
  }

  /** The legacy branch of `decodeDocumentId`: undo "_-_", split at the first ':'. */
  function DecodeLegacyDocumentId(encodedId: Bytes): (Bytes, Bytes) {
    var decoded := ReplaceAll(encodedId, LegacySeparator, ":");
    match FirstIndex(decoded, ':')
    case None => (decoded, "")
    case Some(i) => (decoded[..i], decoded[i + 1..])
  }

  /** `decodeDocumentId`: the escaped scheme when it parses, else the legacy one. */
  function DecodeDocumentId(encodedId: Bytes): (Bytes, Bytes) {
    match DecodeEscapedDocumentId(encodedId)
    case Some(pair) => pair
    case None => DecodeLegacyDocumentId(encodedId)
  }

  // ---------------------------------------------------------------------------
  // Properties of the codec
  // ---------------------------------------------------------------------------

  lemma Bin2HexIsHexData(s: Bytes)
    ensures IsHexData(Bin2Hex(s))
    ensures '_' !in Bin2Hex(s)
  {
    var h := Bin2Hex(s);
    forall i | 0 <= i < |h| ensures h[i] != '_' {
      assert IsLowerHexChar(h[i]);
    }
  }

  /**
   * An escaped id is "h_", 2|p| lowercase hex digits, "_", 2|d| lowercase
   * hex digits, and so consists of engine-legal characters only.
   */
  lemma EscapedIdShape(providerId: Bytes, documentId: Bytes)
    ensures var e := EncodeEscapedDocumentId(providerId, documentId);
      && var n := 2 + 2 * |providerId|;
      && |e| == n + 1 + 2 * |documentId|
      && e[..2] == "h_"
      && AllIn(e[2..n], IsLowerHexChar)
      && e[n] == '_'
      && AllIn(e[n + 1..], IsLowerHexChar)
      && AllIn(e, IsEngineIdChar)
      && '-' !in e
  {
    var hp, hd := Bin2Hex(providerId), Bin2Hex(documentId);
    var e := EncodeEscapedDocumentId(providerId, documentId);
    var n := 2 + 2 * |providerId|;
    assert e == "h_" + hp + "_" + hd;
    assert e[2..n] == hp;
    assert e[n + 1..] == hd;
    forall i | 0 <= i < |e| ensures IsEngineIdChar(e[i]) && e[i] != '-' {
      if 2 <= i < n {
        assert e[i] == hp[i - 2];
        assert IsLowerHexChar(hp[i - 2]);
      } else if n < i {
        assert e[i] == hd[i - n - 1];
        assert IsLowerHexChar(hd[i - n - 1]);
      }
    }
  }

  /** The escaped scheme round-trips for every pair of byte strings, empty ones included. */
  lemma EscapedRoundTrip(providerId: Bytes, documentId: Bytes)
    ensures DecodeEscapedDocumentId(EncodeEscapedDocumentId(providerId, documentId))
            == Some((providerId, documentId))
    ensures DecodeDocumentId(EncodeEscapedDocumentId(providerId, documentId))
            == (providerId, documentId)
  {
    var hp, hd := Bin2Hex(providerId), Bin2Hex(documentId);
    var e := EncodeEscapedDocumentId(providerId, documentId);
    assert e == "h_" + (hp + "_" + hd);
    var payload := e[2..];
    assert payload == hp + "_" + hd;
    Bin2HexIsHexData(providerId);
    Bin2HexIsHexData(documentId);
    PayloadParts(hp, hd);
    HexFieldOfBin2Hex(providerId);
    HexFieldOfBin2Hex(documentId);
  }

  lemma HexFieldOfBin2Hex(s: Bytes)
    ensures DecodeHexField(Bin2Hex(s)) == Some(s)
  {
    Hex2BinOfBin2Hex(s);
  }

  /** A payload whose provider half has no '_' splits back into its halves. */
  lemma PayloadParts(hp: Bytes, hd: Bytes)
    requires '_' !in hp
    ensures var payload := hp + "_" + hd;
      && FirstIndex(payload, '_') == Some(|hp|)
      && payload[..|hp|] == hp && payload[|hp| + 1..] == hd
  {
    var payload := hp + "_" + hd;
    assert payload[..|hp|] == hp && payload[|hp|] == '_';
    FirstIndexAt(payload, '_', |hp|);
  }

  /**
   * The escaped decoder accepts exactly the escaped encodings: whatever it
   * decodes re-encodes to the id it was given.
   */
  lemma EscapedDecodeCanonical(encodedId: Bytes)
    requires DecodeEscapedDocumentId(encodedId).Some?
    ensures var (p, d) := DecodeEscapedDocumentId(encodedId).value;
            EncodeEscapedDocumentId(p, d) == encodedId
  {
    var payload := encodedId[2..];
    PayloadCanonical(payload);
    var (p, d) := DecodeEscapedPayload(payload).value;
    assert encodedId == EscapedPrefix + payload by {
      assert encodedId[..2] == EscapedPrefix;
    }
  }

  lemma PayloadCanonical(payload: Bytes)
    requires DecodeEscapedPayload(payload).Some?
    ensures var (p, d) := DecodeEscapedPayload(payload).value;
            Bin2Hex(p) + "_" + Bin2Hex(d) == payload
  {
    var pos := FirstIndex(payload, '_').value;
    var ph, dh := payload[..pos], payload[pos + 1..];
    HexFieldCanonical(ph);
    HexFieldCanonical(dh);
    assert payload == ph + "_" + dh by {
      assert payload[pos] == '_';
    }
  }

  lemma HexFieldCanonical(h: Bytes)
    requires IsHexData(h) && DecodeHexField(h).Some?
    ensures Bin2Hex(DecodeHexField(h).value) == h
  {
    HexDataDecodes(h);
  }

  /** Hex data that decodes is `bin2hex` of its decoding (the empty string included). */
  lemma HexDataDecodes(h: Bytes)
    requires IsHexData(h) && (h == "" || Hex2Bin(h).Some?)
    ensures h == "" ==> Bin2Hex("") == h
    ensures h != "" ==> Bin2Hex(Hex2Bin(h).value) == h
  {
    if h != "" {
      if !AllIn(h, IsLowerHexChar) {
        // the only other way `isHexData` holds is a trailing "\n", which hex2bin rejects
        assert h[|h| - 1] == '\n';
        Hex2BinOnlyHexDigits(h, |h| - 1);
        assert false;
      }
      Bin2HexOfHex2Bin(h);
    }
  }

  /**
   * Because of PCRE's `$`, `isHexData` also accepts lowercase hex followed by
   * a newline; `hex2bin` then fails and decoding falls back to legacy.
   */
  lemma HexDataTrailingNewline()
    ensures IsHexData("abc\n")
    ensures Hex2Bin("abc\n").None?
    ensures DecodeEscapedDocumentId("h_abc\n_").None?
  {
    var payload: Bytes := "abc\n_";
    assert "h_abc\n_"[2..] == payload;
    assert FirstIndex(payload, '_') == Some(4);
    assert payload[..4] == "abc\n";
    assert payload[5..] == "";
    var h: Bytes := "abc\n";
    assert AllIn(h[..3], IsLowerHexChar);
    assert Nibble(h[3]).None?;
    assert h[2..] == "c\n";
  }

  lemma ContainsByte(s: Bytes, c: Byte)
    ensures Contains(s, [c]) <==> c in s
    decreases |s|
  {
    if s != [] {
      ContainsByte(s[1..], c);
      assert s == [s[0]] + s[1..];
    }
  }

  /** The legacy encoding is the pieces with each ':' replaced by "_-_". */
  lemma LegacyEncodingSplits(providerId: Bytes, documentId: Bytes)
    ensures EncodeLegacyDocumentId(providerId, documentId)
            == ReplaceAll(providerId, ":", LegacySeparator) + LegacySeparator
               + ReplaceAll(documentId, ":", LegacySeparator)
  {
    ReplaceByteAppend(providerId + ":", documentId, ':', LegacySeparator);
    ReplaceByteAppend(providerId, ":", ':', LegacySeparator);
    assert ReplaceAll(":", ":", LegacySeparator) == LegacySeparator by {
      var colon: Bytes := ":";
      assert colon[1..] == "";
    }
  }

  /** A legacy id always contains "-" (from the separator), an escaped id never. */
  lemma LegacyDiffersFromEscaped(providerId: Bytes, documentId: Bytes)
    ensures EncodeLegacyDocumentId(providerId, documentId)
            != EncodeEscapedDocumentId(providerId, documentId)
  {
    LegacyEncodingSplits(providerId, documentId);
    var l := EncodeLegacyDocumentId(providerId, documentId);
    var a := ReplaceAll(providerId, ":", LegacySeparator);
    assert l[|a| + 1] == '-';
    EscapedIdShape(providerId, documentId);
  }

  /**
   * `encodeDocumentId` produces the escaped form exactly when `requiresEscapedId`
   * holds: when either id contains "_-_" or fails `^[A-Za-z0-9_:-]+$`.
   */
  lemma EncodeChoosesEscapedExactly(providerId: Bytes, documentId: Bytes)
    ensures EncodeDocumentId(providerId, documentId) == EncodeEscapedDocumentId(providerId, documentId)
            <==> RequiresEscapedId(providerId, documentId)
    ensures !RequiresEscapedId(providerId, documentId)
            ==> EncodeDocumentId(providerId, documentId) == EncodeLegacyDocumentId(providerId, documentId)
  {
    LegacyDiffersFromEscaped(providerId, documentId);
  }

  /** An empty id fails the legacy pattern, so it is always escaped: ("", "") is "h__". */
  lemma EmptyIdsAreEscaped(providerId: Bytes, documentId: Bytes)
    requires providerId == "" || documentId == ""
    ensures RequiresEscapedId(providerId, documentId)
    ensures EncodeDocumentId("", "") == "h__"
    ensures DecodeDocumentId("h__") == ("", "")
  {
    EscapedRoundTrip("", "");
  }

  /** Without ':' in either id the legacy id is p + "_-_" + d. */
  lemma LegacyEncodingPlain(providerId: Bytes, documentId: Bytes)
    requires ':' !in providerId && ':' !in documentId
    ensures EncodeLegacyDocumentId(providerId, documentId) == providerId + LegacySeparator + documentId
  {
    LegacyEncodingSplits(providerId, documentId);
    ContainsByte(providerId, ':');
    ContainsByte(documentId, ':');
    ReplaceAllAbsent(providerId, ":", LegacySeparator);
    ReplaceAllAbsent(documentId, ":", LegacySeparator);
  }

  /** p + "_-_" + d with no '_' in p is never read as an escaped id. */
  lemma EscapedRejectsLegacyShape(providerId: Bytes, documentId: Bytes)
    requires '_' !in providerId
    ensures DecodeEscapedDocumentId(providerId + LegacySeparator + documentId).None?
  {
    var p, d := providerId, documentId;
    var e := p + LegacySeparator + d;
    if StartsWith(e, EscapedPrefix) {
      assert e[0] == 'h' && e[1] == '_';
      assert |p| == 1;
      var payload := e[2..];
      assert payload == "-_" + d;
      assert FirstIndex(payload, '_') == Some(1);
      assert payload[..1] == "-";
      assert !IsHexData("-");
    }
  }

  /** The legacy decoder splits p + "_-_" + d back into (p, d). */
  lemma LegacyDecodeShape(providerId: Bytes, documentId: Bytes)
    requires '_' !in providerId && ':' !in providerId
    requires !Contains(documentId, LegacySeparator)
    ensures DecodeLegacyDocumentId(providerId + LegacySeparator + documentId) == (providerId, documentId)
  {
    var p, d := providerId, documentId;
    var e := p + LegacySeparator + d;
    assert e == p + (LegacySeparator + d);
    ReplaceAllSkip(p, LegacySeparator + d, LegacySeparator, ":");
    ReplaceAllAtFront(LegacySeparator, d, ":");
    ReplaceAllAbsent(d, LegacySeparator, ":");
    var decoded := p + ":" + d;
    assert ReplaceAll(e, LegacySeparator, ":") == decoded;
    assert decoded[|p|] == ':' && decoded[..|p|] == p && decoded[|p| + 1..] == d;
    assert FirstIndex(decoded, ':') == Some(|p|);
  }

  /**
   * The legacy scheme round-trips when the provider id has neither '_' nor ':'
   * and the document id has neither ':' nor "_-_".
   */
  lemma LegacyRoundTrip(providerId: Bytes, documentId: Bytes)
    requires '_' !in providerId && ':' !in providerId
    requires ':' !in documentId && !Contains(documentId, LegacySeparator)
    ensures DecodeDocumentId(EncodeLegacyDocumentId(providerId, documentId))
            == (providerId, documentId)
  {
    LegacyEncodingPlain(providerId, documentId);
    EscapedRejectsLegacyShape(providerId, documentId);
    LegacyDecodeShape(providerId, documentId);
  }

  /**
   * The pairs the codec round-trips: those the escaped scheme encodes, and
   * legacy pairs whose provider id has neither `_` nor `:` and whose document
   * id has no `:`.
   */
  predicate RoundTrips(providerId: Bytes, documentId: Bytes) {
    RequiresEscapedId(providerId, documentId)
    || ('_' !in providerId && ':' !in providerId && ':' !in documentId)
  }

  /** `decodeDocumentId(encodeDocumentId(p, d)) == (p, d)` for every pair that `RoundTrips`. */
  lemma EncodeRoundTrip(providerId: Bytes, documentId: Bytes)
    requires RoundTrips(providerId, documentId)
    ensures DecodeDocumentId(EncodeDocumentId(providerId, documentId)) == (providerId, documentId)
  {
    if RequiresEscapedId(providerId, documentId) {
      EscapedRoundTrip(providerId, documentId);
    } else {
      LegacyRoundTrip(providerId, documentId);
    }
  }

  lemma NoSeparatorWithoutUnderscore(s: Bytes)
    requires '_' !in s
    ensures !Contains(s, LegacySeparator)
  {
    if Contains(s, LegacySeparator) {
      ContainsFirstByte(s, LegacySeparator);
    }
  }

  /** Two pairs of legal ids without "_-_": both take the legacy scheme. */
  lemma CollisionPairsAreLegacy()
    ensures !RequiresEscapedId("a:b", "c") && !RequiresEscapedId("a", "b:c")
  {
    NoSeparatorWithoutUnderscore("a:b");
    NoSeparatorWithoutUnderscore("c");
    NoSeparatorWithoutUnderscore("a");
    NoSeparatorWithoutUnderscore("b:c");
    assert AllIn("a:b", IsLegacyIdChar) && AllIn("c", IsLegacyIdChar);
    assert AllIn("a", IsLegacyIdChar) && AllIn("b:c", IsLegacyIdChar);
  }

  lemma LegacyIdOfColonPair(x: Byte, y: Byte, z: Byte)
    requires x != ':' && y != ':' && z != ':'
    ensures EncodeLegacyDocumentId([x, ':', y], [z]) == [x] + LegacySeparator + [y] + LegacySeparator + [z]
    ensures EncodeLegacyDocumentId([x], [y, ':', z]) == [x] + LegacySeparator + [y] + LegacySeparator + [z]
  {
    LegacyIdOfColonInProvider(x, y, z);
    LegacyIdOfColonInDocument(x, y, z);
  }

  lemma LegacyIdOfColonInProvider(x: Byte, y: Byte, z: Byte)
    requires x != ':' && y != ':' && z != ':'
    ensures EncodeLegacyDocumentId([x, ':', y], [z]) == [x] + LegacySeparator + [y] + LegacySeparator + [z]
  {
    LegacyEncodingSplits([x, ':', y], [z]);
    ReplaceByteAppend([x], [':', y], ':', LegacySeparator);
    ReplaceAllAtFront([':'], [y], LegacySeparator);
    assert [x, ':', y] == [x] + [':', y];
    assert [':', y] == [':'] + [y];
  }

  lemma LegacyIdOfColonInDocument(x: Byte, y: Byte, z: Byte)
    requires x != ':' && y != ':' && z != ':'
    ensures EncodeLegacyDocumentId([x], [y, ':', z]) == [x] + LegacySeparator + [y] + LegacySeparator + [z]
  {
    LegacyEncodingSplits([x], [y, ':', z]);
    ReplaceByteAppend([y], [':', z], ':', LegacySeparator);
    ReplaceAllAtFront([':'], [z], LegacySeparator);
    assert [y, ':', z] == [y] + [':', z];
    assert [':', z] == [':'] + [z];
  }

  /** The legacy decoder splits at the first ':' its replacement produces. */
  lemma LegacyDecodeSplit(e: Bytes, x: Bytes, y: Bytes)
    requires ReplaceAll(e, LegacySeparator, ":") == x + ":" + y && ':' !in x
    ensures DecodeLegacyDocumentId(e) == (x, y)
  {
    var d := x + ":" + y;
    assert d[..|x|] == x && d[|x|] == ':' && d[|x| + 1..] == y;
    FirstIndexAt(d, ':', |x|);
  }

  lemma {:induction false} FirstIndexAt(s: Bytes, c: Byte, k: nat)
    requires k < |s| && s[k] == c && c !in s[..k]
    ensures FirstIndex(s, c) == Some(k)
    decreases k
  {
    if k > 0 {
      assert s[0] == s[..k][0];
      assert s[1..][..k - 1] == s[..k][1..];
      FirstIndexAt(s[1..], c, k - 1);
    }
  }

  lemma CollidingIdReplaced()
    ensures ReplaceAll("a_-_b_-_c", LegacySeparator, ":") == "a:b:c"
  {
    var e: Bytes := "a_-_b_-_c";
    var tail := LegacySeparator + ("b" + (LegacySeparator + "c"));
    assert e == "a" + tail;
    ReplaceAllSkip("a", tail, LegacySeparator, ":");
    ReplaceAllAtFront(LegacySeparator, "b" + (LegacySeparator + "c"), ":");
    ReplaceAllSkip("b", LegacySeparator + "c", LegacySeparator, ":");
    ReplaceAllAtFront(LegacySeparator, "c", ":");
    ShortNeverContains("c", LegacySeparator);
    ReplaceAllAbsent("c", LegacySeparator, ":");
  }

  lemma DecodeCollidingId()
    ensures DecodeDocumentId("a_-_b_-_c") == ("a", "b:c")
  {
    CollidingIdNotEscaped();
    CollidingIdLegacy();
  }

  lemma CollidingIdNotEscaped()
    ensures DecodeEscapedDocumentId("a_-_b_-_c") == None
  {
    var e: Bytes := "a_-_b_-_c";
    assert e[..2] != EscapedPrefix by { assert e[0] == 'a'; }
  }

  lemma CollidingIdLegacy()
    ensures DecodeLegacyDocumentId("a_-_b_-_c") == ("a", "b:c")
  {
    var x: Bytes := "a";
    var y: Bytes := "b:c";
    CollidingIdReplaced();
    assert "a:b:c" == x + ":" + y;
    LegacyDecodeSplit("a_-_b_-_c", x, y);
  }

  /**
   * Without the side condition the legacy scheme is not injective:
   * ("a:b", "c") and ("a", "b:c") get the same id, which decodes as ("a", "b:c").
   */
  lemma LegacyCollision()
    ensures EncodeDocumentId("a:b", "c") == EncodeDocumentId("a", "b:c") == "a_-_b_-_c"
    ensures DecodeDocumentId("a_-_b_-_c") == ("a", "b:c")
  {
    CollisionPairsAreLegacy();
    LegacyIdOfColonPair('a', 'b', 'c');
    var id := ['a'] + LegacySeparator + ['b'] + LegacySeparator + ['c'];
    assert id == "a_-_b_-_c";
    assert EncodeDocumentId(['a', ':', 'b'], ['c']) == id;
    assert EncodeDocumentId(['a'], ['b', ':', 'c']) == id;
    DecodeCollidingId();
  }

  /** ("a_-", "b") takes the legacy scheme and comes back as ("a", "-_b"). */
  lemma LegacySeparatorOverlap()
    ensures EncodeDocumentId("a_-", "b") == "a_-_-_b"
    ensures DecodeDocumentId("a_-_-_b") == ("a", "-_b")
  {
    var a: Bytes := "a_-";
    assert a[..3] == a && a[1..] == "_-";
    ShortNeverContains("_-", LegacySeparator);
    assert !Contains(a, LegacySeparator);
    NoSeparatorWithoutUnderscore("b");
    assert AllIn("a_-", IsLegacyIdChar) && AllIn("b", IsLegacyIdChar);
    LegacyEncodingPlain("a_-", "b");
    OverlapDecodes();
  }

  lemma OverlapReplaced()
    ensures ReplaceAll("a_-_-_b", LegacySeparator, ":") == "a:-_b"
  {
    var e: Bytes := "a_-_-_b";
    var rest: Bytes := "-_b";
    assert e == "a" + (LegacySeparator + rest);
    ReplaceAllSkip("a", LegacySeparator + rest, LegacySeparator, ":");
    ReplaceAllAtFront(LegacySeparator, rest, ":");
    assert rest[..3] != LegacySeparator && rest[1..] == "_b";
    ShortNeverContains("_b", LegacySeparator);
    assert !Contains(rest, LegacySeparator);
    ReplaceAllAbsent(rest, LegacySeparator, ":");
  }

  lemma OverlapDecodes()
    ensures DecodeDocumentId("a_-_-_b") == ("a", "-_b")
  {
    var e: Bytes := "a_-_-_b";
    assert DecodeEscapedDocumentId(e) == None by {
      assert e[..2] != EscapedPrefix by { assert e[0] == 'a'; }
    }
    OverlapReplaced();
    LegacyDecodeSplit(e, "a", "-_b");
  }

  /**
   * Because of PCRE's `$`, a provider id with a trailing newline passes the
   * legacy pattern, and the id it produces is not engine-legal.
   */
  lemma LegacyIdMayContainNewline()
    ensures !RequiresEscapedId("a\n", "b")
    ensures EncodeDocumentId("a\n", "b") == "a\n_-_b"
    ensures !AllIn(EncodeDocumentId("a\n", "b"), IsEngineIdChar)
  {
    assert AllIn("a" , IsLegacyIdChar) && AllIn("b", IsLegacyIdChar);
    var an: Bytes := "a\n";
    assert an[..1] == "a";
    LegacyEncodingSplits("a\n", "b");
    assert "a\n_-_b"[1] == '\n';
  }

  // ---------------------------------------------------------------------------
  // indexDocumentRemove
  // ---------------------------------------------------------------------------

  /** `array_unique([encodeDocumentId(p, d), encodeLegacyDocumentId(p, d)])`. */
  function RemoveCandidates(providerId: Bytes, documentId: Bytes): seq<Bytes> {
    Unique([EncodeDocumentId(providerId, documentId), EncodeLegacyDocumentId(providerId, documentId)])
  }

  /**
   * One candidate when the legacy scheme was chosen, two (current first,
   * legacy second) when the escaped scheme was.
   */
  lemma RemoveCandidatesShape(providerId: Bytes, documentId: Bytes)
    ensures var c := RemoveCandidates(providerId, documentId);
      && c[0] == EncodeDocumentId(providerId, documentId)
      && c[|c| - 1] == EncodeLegacyDocumentId(providerId, documentId)
      && (|c| == 1 <==> !RequiresEscapedId(providerId, documentId))
      && (|c| == 2 <==> RequiresEscapedId(providerId, documentId))
  {
    var e, l := EncodeDocumentId(providerId, documentId), EncodeLegacyDocumentId(providerId, documentId);
    LegacyDiffersFromEscaped(providerId, documentId);
    assert [e, l][..1] == [e];
    assert Unique([e]) == [e];
  }

  /** An engine answer to `deleteDocument` that is not swallowed. */
  predicate IsFatalDelete(outcome: Option<ClientError>) {
    outcome.Some? && !outcome.value.ApiError?
  }

  /**
   * `indexDocumentRemove`: delete every candidate id in order, swallowing each
   * `ApiException`; any other client error propagates and stops the loop.
   * `delete` gives the engine's answer for an id (None on success).
   */
  method IndexDocumentRemove(
    configuredIndex: Bytes,
    providerId: Bytes,
    documentId: Bytes,
    delete: Bytes -> Option<ClientError>)
    returns (attempted: seq<Bytes>, failure: Option<Failure>)
    ensures configuredIndex == "" ==> attempted == [] && failure == Some(ConfigurationFailure)
    ensures configuredIndex != "" ==>
      var c := RemoveCandidates(providerId, documentId);
      && (failure.None? <==> forall j :: 0 <= j < |c| ==> !IsFatalDelete(delete(c[j])))
      && (failure.None? ==> attempted == c)
      && (failure.Some? ==>
            && 0 < |attempted| <= |c|
            && attempted == c[..|attempted|]
            && IsFatalDelete(delete(attempted[|attempted| - 1]))
            && failure == Some(ClientFailure(delete(attempted[|attempted| - 1]).value))
            && forall j :: 0 <= j < |attempted| - 1 ==> !IsFatalDelete(delete(attempted[j])))
  {
    attempted, failure := [], None;
    if IndexName(configuredIndex).None? {
      failure := Some(ConfigurationFailure);
      return;
    }
    var docIds := RemoveCandidates(providerId, documentId);
    var i := 0;
    while i < |docIds|
      invariant 0 <= i <= |docIds|
      invariant attempted == docIds[..i]
      invariant forall j :: 0 <= j < i ==> !IsFatalDelete(delete(docIds[j]))
    {
      attempted := attempted + [docIds[i]];
      var outcome := delete(docIds[i]);
      if outcome.Some? && !outcome.value.ApiError? {
        failure := Some(ClientFailure(outcome.value));
        assert attempted == docIds[..i + 1];
        return;
      }
      i := i + 1;
    }
    assert docIds[..i] == docIds;
  }

  // ---------------------------------------------------------------------------
  // configureIndexSettings (the attribute lists only)
  // ---------------------------------------------------------------------------

  const FilterableAttributes: seq<Bytes> := [
    "owner", "users", "groups", "circles", "links",
    "provider", "metatags", "subtags", "tags", "source",
    "lastModified"]
  const SearchableAttributes: seq<Bytes> := [TitleKey, ContentKey]
  const SortableAttributes: seq<Bytes> := ["lastModified"]

  // ---------------------------------------------------------------------------
  // generateIndexBody
  // ---------------------------------------------------------------------------

  /**
   * The content indexed for a document: non-empty base64 content is decoded,
   * and replaced by "" when decoding fails or yields invalid UTF-8.
   * `base64Decode` and `isUtf8` stand for `base64_decode` and
   * `mb_check_encoding($s, 'UTF-8')`.
   */
  function IndexedContent(doc: IndexDocument, base64Decode: Bytes -> Option<Bytes>, isUtf8: Bytes -> bool): Bytes {
    if doc.content != "" && doc.encoding == Base64 then
      var decoded := base64Decode(doc.content);
      if decoded.Some? && isUtf8(decoded.value) then decoded.value else ""
    else doc.content
  }

  /** The body's own keys, in the order the literal lists them. */
  const CanonicalKeys: seq<Bytes> := [
    OwnerKey, UsersKey, GroupsKey, CirclesKey, LinksKey, MetaTagsKey, SubTagsKey, TagsKey,
    HashKey, ProviderKey, LastModifiedKey, SourceKey, TitleKey, PartsKey, ContentKey]

  /** The body literal of `generateIndexBody`, content included. */
  function CanonicalBody(doc: IndexDocument, content: Bytes): (r: PArray)
    ensures |r| == |CanonicalKeys|
    ensures forall i :: 0 <= i < |r| ==> r[i].0 == KStr(CanonicalKeys[i])
  {
    [ (KStr(OwnerKey), Str(doc.access.ownerId)),
      (KStr(UsersKey), Arr(doc.access.users)),
      (KStr(GroupsKey), Arr(doc.access.groups)),
      (KStr(CirclesKey), Arr(doc.access.circles)),
      (KStr(LinksKey), Arr(doc.access.links)),
      (KStr(MetaTagsKey), Arr(doc.metaTags)),
      (KStr(SubTagsKey), Arr(doc.subTags)),
      (KStr(TagsKey), Arr(doc.tags)),
      (KStr(HashKey), Str(doc.hash)),
      (KStr(ProviderKey), Str(doc.providerId)),
      (KStr(LastModifiedKey), Int(doc.modifiedTime)),
      (KStr(SourceKey), Str(doc.source)),
      (KStr(TitleKey), Str(doc.title)),
      (KStr(PartsKey), Arr(doc.parts)),
      (KStr(ContentKey), Str(content)) ]
  }

  /** `generateIndexBody`: `array_merge($document->getInfoAll(), $body)`. */
  function GenerateIndexBody(doc: IndexDocument, base64Decode: Bytes -> Option<Bytes>, isUtf8: Bytes -> bool): PArray {
    ArrayMerge(doc.info, CanonicalBody(doc, IndexedContent(doc, base64Decode, isUtf8)))
  }

  lemma CanonicalKeysDistinct(doc: IndexDocument, content: Bytes)
    ensures DistinctKeys(CanonicalBody(doc, content))
  {
    var b := CanonicalBody(doc, content);
    forall i, j | 0 <= i < j < |b| ensures b[i].0 != b[j].0 {
      assert CanonicalKeys[i] != CanonicalKeys[j];
    }
  }

  /**
   * The document's own fields win over same-named info fields; an info field
   * under any other string key keeps its value.
   */
  lemma IndexBodyFields(doc: IndexDocument, base64Decode: Bytes -> Option<Bytes>, isUtf8: Bytes -> bool, k: Bytes)
    ensures var body := GenerateIndexBody(doc, base64Decode, isUtf8);
            var canonical := CanonicalBody(doc, IndexedContent(doc, base64Decode, isUtf8));
            && (k in CanonicalKeys ==> Get(body, KStr(k)) == Get(canonical, KStr(k)))
            && (k !in CanonicalKeys ==> Get(body, KStr(k)) == LastValue(doc.info, KStr(k)))
  {
    var canonical := CanonicalBody(doc, IndexedContent(doc, base64Decode, isUtf8));
    CanonicalKeysDistinct(doc, IndexedContent(doc, base64Decode, isUtf8));
    ArrayMergeGet(doc.info, canonical, KStr(k));
    if k in CanonicalKeys {
      var i :| 0 <= i < |CanonicalKeys| && CanonicalKeys[i] == k;
      assert canonical[i].0 == KStr(k);
    } else {
      forall i | 0 <= i < |canonical| ensures canonical[i].0 != KStr(k) {
        assert canonical[i].0 == KStr(CanonicalKeys[i]);
      }
    }
  }

  /** The body's content field: left alone unless non-empty and flagged base64. */
  lemma IndexBodyContent(doc: IndexDocument, base64Decode: Bytes -> Option<Bytes>, isUtf8: Bytes -> bool)
    ensures var c := Get(GenerateIndexBody(doc, base64Decode, isUtf8), KStr(ContentKey));
      && (doc.content == "" || doc.encoding == Plain ==> c == Some(Str(doc.content)))
      && (doc.content != "" && doc.encoding == Base64 ==>
            var decoded := base64Decode(doc.content);
            if decoded.Some? && isUtf8(decoded.value) then c == Some(Str(decoded.value))
            else c == Some(Str("")))
  {
    IndexBodyFields(doc, base64Decode, isUtf8, ContentKey);
    var canonical := CanonicalBody(doc, IndexedContent(doc, base64Decode, isUtf8));
    CanonicalKeysDistinct(doc, IndexedContent(doc, base64Decode, isUtf8));
    GetUniqueAt(canonical, 14);
  }

  /**
   * `indexDocumentNew` / `indexDocumentUpdate` send the body with `id` set to
   * the encoded identity, overriding any info field named `id`.
   */
  function IndexPayload(doc: IndexDocument, base64Decode: Bytes -> Option<Bytes>, isUtf8: Bytes -> bool): (r: PArray)
    ensures Get(r, KStr(IdKey)) == Some(Str(EncodeDocumentId(doc.providerId, doc.id)))
    ensures forall k :: k != KStr(IdKey) ==> Get(r, k) == Get(GenerateIndexBody(doc, base64Decode, isUtf8), k)
  {
    Put(GenerateIndexBody(doc, base64Decode, isUtf8), KStr(IdKey), Str(EncodeDocumentId(doc.providerId, doc.id)))
  }

  /** A field of the body literal is stored under its own key in the payload. */
  lemma PayloadGet(doc: IndexDocument, base64Decode: Bytes -> Option<Bytes>, isUtf8: Bytes -> bool, k: Bytes, v: Value)
    requires (KStr(k), v) in CanonicalBody(doc, IndexedContent(doc, base64Decode, isUtf8))
    ensures Get(IndexPayload(doc, base64Decode, isUtf8), KStr(k)) == Some(v)
  {
    var content := IndexedContent(doc, base64Decode, isUtf8);
    var body := CanonicalBody(doc, content);
    var i :| 0 <= i < |body| && body[i] == (KStr(k), v);
    assert CanonicalKeys[i] == k;
    assert k != IdKey by {
      assert IdKey !in CanonicalKeys;
    }
    IndexBodyFields(doc, base64Decode, isUtf8, k);
    CanonicalKeysDistinct(doc, content);
    GetUniqueAt(body, i);
  }

  /** `stored` holds every field of the body literal under its own key. */
  predicate StoresBody(stored: PArray, doc: IndexDocument, content: Bytes) {
    && Get(stored, KStr(OwnerKey)) == Some(Str(doc.access.ownerId))
    && Get(stored, KStr(UsersKey)) == Some(Arr(doc.access.users))
    && Get(stored, KStr(GroupsKey)) == Some(Arr(doc.access.groups))
    && Get(stored, KStr(CirclesKey)) == Some(Arr(doc.access.circles))
    && Get(stored, KStr(LinksKey)) == Some(Arr(doc.access.links))
    && Get(stored, KStr(MetaTagsKey)) == Some(Arr(doc.metaTags))
    && Get(stored, KStr(SubTagsKey)) == Some(Arr(doc.subTags))
    && Get(stored, KStr(TagsKey)) == Some(Arr(doc.tags))
    && Get(stored, KStr(HashKey)) == Some(Str(doc.hash))
    && Get(stored, KStr(ProviderKey)) == Some(Str(doc.providerId))
    && Get(stored, KStr(LastModifiedKey)) == Some(Int(doc.modifiedTime))
    && Get(stored, KStr(SourceKey)) == Some(Str(doc.source))
    && Get(stored, KStr(TitleKey)) == Some(Str(doc.title))
    && Get(stored, KStr(PartsKey)) == Some(Arr(doc.parts))
    && Get(stored, KStr(ContentKey)) == Some(Str(content))
  }

  /** Every field of the body literal is stored under its key. */
  ghost predicate StoresFields(stored: PArray, doc: IndexDocument, content: Bytes) {
    forall k, v :: (KStr(k), v) in CanonicalBody(doc, content) ==> Get(stored, KStr(k)) == Some(v)
  }

  lemma StoresByName(stored: PArray, doc: IndexDocument, content: Bytes)
    requires StoresFields(stored, doc, content)
    ensures StoresBody(stored, doc, content)
  {
    var body := CanonicalBody(doc, content);
    assert (KStr(OwnerKey), Str(doc.access.ownerId)) in body;
    assert (KStr(UsersKey), Arr(doc.access.users)) in body;
    assert (KStr(GroupsKey), Arr(doc.access.groups)) in body;
    assert (KStr(CirclesKey), Arr(doc.access.circles)) in body;
    assert (KStr(LinksKey), Arr(doc.access.links)) in body;
    assert (KStr(MetaTagsKey), Arr(doc.metaTags)) in body;
    assert (KStr(SubTagsKey), Arr(doc.subTags)) in body;
    assert (KStr(TagsKey), Arr(doc.tags)) in body;
    assert (KStr(HashKey), Str(doc.hash)) in body;
    assert (KStr(ProviderKey), Str(doc.providerId)) in body;
    assert (KStr(LastModifiedKey), Int(doc.modifiedTime)) in body;
    assert (KStr(SourceKey), Str(doc.source)) in body;
    assert (KStr(TitleKey), Str(doc.title)) in body;
    assert (KStr(PartsKey), Arr(doc.parts)) in body;
    assert (KStr(ContentKey), Str(content)) in body;
  }

  /** The payload sent to the engine stores the whole body literal, content as indexed. */
  lemma PayloadStoresBody(doc: IndexDocument, base64Decode: Bytes -> Option<Bytes>, isUtf8: Bytes -> bool)
    ensures StoresBody(IndexPayload(doc, base64Decode, isUtf8), doc, IndexedContent(doc, base64Decode, isUtf8))
  {
    var content := IndexedContent(doc, base64Decode, isUtf8);
    forall k, v | (KStr(k), v) in CanonicalBody(doc, content)
      ensures Get(IndexPayload(doc, base64Decode, isUtf8), KStr(k)) == Some(v)
    {
      PayloadGet(doc, base64Decode, isUtf8, k, v);
    }
    StoresByName(IndexPayload(doc, base64Decode, isUtf8), doc, content);
  }
}
