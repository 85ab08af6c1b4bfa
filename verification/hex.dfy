/** Byte <-> hex text as the browser helpers do it.

    Encoding is `Array.from(bytes).map(b => b.toString(16).padStart(2, '0')).join('')`:
    two lower-case digits per byte.  Decoding is
    `new Uint8Array(text.match(/.{1,2}/g)?.map(s => parseInt(s, 16)) || [])`, which
    accepts ANY text: the regular expression cuts it into chunks of at most two
    characters (a `.` never matches a line terminator, so those are skipped),
    `parseInt` reads each chunk with JavaScript's rules, and the `Uint8Array`
    turns NaN into 0 and reduces every other value modulo 256. */
module Hex {
  import opened Common

  /** A digit `toString(16)` may produce: never upper case. */
  predicate IsLowerHexDigit(c: char) {
    ('0' <= c <= '9') || ('a' <= c <= 'f')
  }

  /** `n.toString(16)` for a single digit. */
  function Digit(n: int): (c: char)
    requires 0 <= n < 16
    ensures IsLowerHexDigit(c) && IsHexDigit(c) && DigitValue(c) == n
  {
    if n < 10 then ('0' as int + n) as char else ('a' as int + n - 10) as char
  }

  /** `b.toString(16).padStart(2, '0')`. */
  function ByteToHex(b: uint8): (s: string)
    ensures |s| == 2
    ensures forall i :: 0 <= i < 2 ==> IsLowerHexDigit(s[i])
  {
    [Digit(b / 16), Digit(b % 16)]
  }

  /** Hex text of a byte array, two characters per byte. */
  function Encode(bytes: seq<uint8>): (s: string)
    ensures |s| == 2 * |bytes|
    ensures forall i :: 0 <= i < |s| ==> IsLowerHexDigit(s[i])
  {
    if |bytes| == 0 then [] else ByteToHex(bytes[0]) + Encode(bytes[1..])
  }

  // ---------------------------------------------------------------------------
  // Decoding

  /** Characters `.` does not match in a JavaScript regular expression. */
  predicate IsLineTerminator(c: char) {
    c == '\n' || c == '\r' || c == '\U{2028}' || c == '\U{2029}'
  }

  /** `StrWhiteSpaceChar`: what `parseInt` skips before the number. */
  predicate IsWhiteSpace(c: char) {
    || c == '\t' || c == '\U{B}' || c == '\U{C}' || c == ' ' || c == '\U{A0}' || c == '\U{FEFF}'
    || c == '\U{1680}' || ('\U{2000}' <= c <= '\U{200A}') || c == '\U{202F}' || c == '\U{205F}'
    || c == '\U{3000}' || IsLineTerminator(c)
  }

  predicate IsHexDigit(c: char) {
    ('0' <= c <= '9') || ('a' <= c <= 'f') || ('A' <= c <= 'F')
  }

  function DigitValue(c: char): (v: int)
    requires IsHexDigit(c)
    ensures 0 <= v < 16
  {
    if '0' <= c <= '9' then c as int - '0' as int
    else if 'a' <= c <= 'f' then c as int - 'a' as int + 10
    else c as int - 'A' as int + 10
  }

  /** The pieces `text.match(/.{1,2}/g)` returns: a greedy match of one or two
      non-terminator characters at the first position where one starts. */
  function Chunks(text: string): (cs: seq<string>)
    ensures forall i :: 0 <= i < |cs| ==> 1 <= |cs[i]| <= 2
  {
    if |text| == 0 then []
    else if IsLineTerminator(text[0]) then Chunks(text[1..])
    else if |text| >= 2 && !IsLineTerminator(text[1]) then [text[..2]] + Chunks(text[2..])
    else [text[..1]] + Chunks(text[1..])
  }

  function TrimStart(s: string): (t: string)
    ensures |t| <= |s|
  {
    if |s| > 0 && IsWhiteSpace(s[0]) then TrimStart(s[1..]) else s
  }

  /** The longest prefix made of hex digits. */
  function HexPrefix(s: string): (p: string)
    ensures |p| <= |s| && p == s[..|p|]
    ensures forall i :: 0 <= i < |p| ==> IsHexDigit(p[i])
  {
    if |s| > 0 && IsHexDigit(s[0]) then [s[0]] + HexPrefix(s[1..]) else []
  }

  /** Value of a string of hex digits, most significant first. */
  function DigitsValue(d: string): (v: nat)
    requires forall i :: 0 <= i < |d| ==> IsHexDigit(d[i])
  {
    if |d| == 0 then 0 else 16 * DigitsValue(d[..|d| - 1]) + DigitValue(d[|d| - 1])
  }

  /** `parseInt(s, 16)`: None stands for NaN. */
  function ParseIntHex(s: string): Option<int> {
    var t := TrimStart(s);
    var negative := |t| > 0 && t[0] == '-';
    var u := if |t| > 0 && (t[0] == '-' || t[0] == '+') then t[1..] else t;
    var v := if |u| >= 2 && u[0] == '0' && (u[1] == 'x' || u[1] == 'X') then u[2..] else u;
    var digits := HexPrefix(v);
    if |digits| == 0 then None
    else
      var magnitude: int := DigitsValue(digits);
      Some(if negative then -magnitude else magnitude)
  }

  /** The `ToUint8` conversion a `Uint8Array` applies to each number. */
  function ToUint8(n: Option<int>): uint8 {
    match n
    case None => 0
    case Some(v) => v % 256
  }

  function DecodeChunks(cs: seq<string>): (bytes: seq<uint8>)
    ensures |bytes| == |cs|
  {
    if |cs| == 0 then [] else [ToUint8(ParseIntHex(cs[0]))] + DecodeChunks(cs[1..])
  }

  /** Bytes decoded from arbitrary hex text (`importKey`, `decryptCouponCode`). */
  function Decode(text: string): (bytes: seq<uint8>)
    ensures |bytes| == |Chunks(text)|
  {
    DecodeChunks(Chunks(text))
  }

  // ---------------------------------------------------------------------------
  // Properties

  /** A well-formed hex text of even length decodes to one byte per two characters. */
  lemma {:induction false} DecodeLength(text: string)
    requires |text| % 2 == 0
    requires forall i :: 0 <= i < |text| ==> IsHexDigit(text[i])
    ensures |Decode(text)| == |text| / 2
    decreases |text|
  {
    if |text| > 0 {
      assert !IsLineTerminator(text[0]) && !IsLineTerminator(text[1]);
      DecodeLength(text[2..]);
    }
  }

  lemma HexDigitIsPlain(c: char)
    requires IsHexDigit(c)
    ensures !IsWhiteSpace(c) && !IsLineTerminator(c) && c != '-' && c != '+' && c != 'x' && c != 'X'
  {
  }

  /** Two hex digits parse to the byte they spell. */
  lemma ParsePair(c0: char, c1: char)
    requires IsHexDigit(c0) && IsHexDigit(c1)
    ensures ParseIntHex([c0, c1]) == Some(16 * DigitValue(c0) + DigitValue(c1))
  {
    var s := [c0, c1];
    HexDigitIsPlain(c0);
    HexDigitIsPlain(c1);
    assert TrimStart(s) == s;
    assert s[1..] == [c1] && [c1][1..] == [];
    assert HexPrefix(s[1..]) == [c1];
    assert HexPrefix(s) == s;
    assert s[..1] == [c0] && s[..1][..0] == [];
    assert DigitsValue(s[..1]) == DigitValue(c0);
  }

  lemma ParseByteToHex(b: uint8)
    ensures ToUint8(ParseIntHex(ByteToHex(b))) == b
  {
    var hi, lo := b / 16, b % 16;
    var c0, c1 := Digit(hi), Digit(lo);
    assert ByteToHex(b) == [c0, c1];
    assert DigitValue(c0) == hi && DigitValue(c1) == lo;
    assert 16 * hi + lo == b;
    ParsePair(c0, c1);
    assert b % 256 == b;
  }

  /** Decoding inverts encoding for every byte array. */
  lemma {:induction false} DecodeEncode(bytes: seq<uint8>)
    ensures Decode(Encode(bytes)) == bytes
    decreases |bytes|
  {
    if |bytes| > 0 {
      var s := Encode(bytes);
      var h := ByteToHex(bytes[0]);
      assert s == h + Encode(bytes[1..]);
      assert IsLowerHexDigit(s[0]) && IsLowerHexDigit(s[1]);
      assert s[..2] == h;
      assert s[2..] == Encode(bytes[1..]);
      assert Chunks(s) == [h] + Chunks(Encode(bytes[1..]));
      ParseByteToHex(bytes[0]);
      DecodeEncode(bytes[1..]);
      assert DecodeChunks(Chunks(s)) == [bytes[0]] + DecodeChunks(Chunks(Encode(bytes[1..])));
    }
  }

  lemma DecodeEncodeAll()
    ensures forall bytes :: Decode(Encode(bytes)) == bytes
  {
    forall bytes {
      DecodeEncode(bytes);
    }
  }

  /** Hence two byte arrays with the same hex text are equal. */
  lemma EncodeInjective(a: seq<uint8>, b: seq<uint8>)
    requires Encode(a) == Encode(b)
    ensures a == b
  {
    DecodeEncode(a);
    DecodeEncode(b);
  }

  /** `toString(16)` spells a lower-case digit's own value back as that digit. */
  lemma DigitOfValue(c: char)
    requires IsLowerHexDigit(c)
    ensures IsHexDigit(c) && Digit(DigitValue(c)) == c
  {
  }

  /** Encoding inverts decoding on the texts encoding produces: an even number of
      lower-case hex digits.  So such a text is the only one of its kind that
      decodes to its bytes. */
  lemma {:induction false} EncodeDecode(text: string)
    requires |text| % 2 == 0
    requires forall i :: 0 <= i < |text| ==> IsLowerHexDigit(text[i])
    ensures Encode(Decode(text)) == text
    decreases |text|
  {
    if |text| > 0 {
      var rest := text[2..];
      var b := DecodeLowerPair(text);
      var d := Decode(rest);
      EncodeDecode(rest);
      EncodeCons(b, d);
      assert text == text[..2] + rest;
    }
  }

  /** The first two characters of a lower-case hex text: the byte they spell,
      decoded ahead of the rest, whose own characters stay lower-case digits. */
  lemma DecodeLowerPair(text: string) returns (b: uint8)
    requires 2 <= |text|
    requires forall i :: 0 <= i < |text| ==> IsLowerHexDigit(text[i])
    ensures Decode(text) == [b] + Decode(text[2..])
    ensures ByteToHex(b) == text[..2]
    ensures forall i :: 0 <= i < |text[2..]| ==> IsLowerHexDigit(text[2..][i])
  {
    var c0, c1, rest := text[0], text[1], text[2..];
    assert text == [c0, c1] + rest;
    b := PairByte(c0, c1);
    DecodePairThen(c0, c1, rest);
  }

  /** `Encode(bytes)` is the one text of even length in lower-case digits that
      decodes to `bytes`. */
  lemma OnlySpelling(text: string, bytes: seq<uint8>)
    ensures (&& |text| == 2 * |bytes|
             && (forall i :: 0 <= i < |text| ==> IsLowerHexDigit(text[i]))
             && Decode(text) == bytes)
        <==> text == Encode(bytes)
  {
    SpellingIfDecodes(text, bytes);
    DecodesIfSpelling(text, bytes);
  }

  lemma SpellingIfDecodes(text: string, bytes: seq<uint8>)
    ensures (&& |text| == 2 * |bytes|
             && (forall i :: 0 <= i < |text| ==> IsLowerHexDigit(text[i]))
             && Decode(text) == bytes) ==> text == Encode(bytes)
  {
    if |text| == 2 * |bytes| && (forall i :: 0 <= i < |text| ==> IsLowerHexDigit(text[i])) && Decode(text) == bytes {
      EncodeDecode(text);
    }
  }

  lemma DecodesIfSpelling(text: string, bytes: seq<uint8>)
    ensures text == Encode(bytes) ==>
      && |text| == 2 * |bytes|
      && (forall i :: 0 <= i < |text| ==> IsLowerHexDigit(text[i]))
      && Decode(text) == bytes
  {
    if text == Encode(bytes) {
      DecodeEncode(bytes);
    }
  }

  /** The byte two lower-case digits spell, and its own spelling. */
  lemma PairByte(c0: char, c1: char) returns (b: uint8)
    requires IsLowerHexDigit(c0) && IsLowerHexDigit(c1)
    ensures IsHexDigit(c0) && IsHexDigit(c1)
    ensures b == 16 * DigitValue(c0) + DigitValue(c1) && ToUint8(Some(b)) == b
    ensures ByteToHex(b) == [c0, c1]
  {
    DigitOfValue(c0);
    DigitOfValue(c1);
    b := 16 * DigitValue(c0) + DigitValue(c1);
    assert b / 16 == DigitValue(c0) && b % 16 == DigitValue(c1);
  }

  lemma EncodeCons(b: uint8, bytes: seq<uint8>)
    ensures Encode([b] + bytes) == ByteToHex(b) + Encode(bytes)
  {
    assert ([b] + bytes)[1..] == bytes;
  }

  /** A single hex digit parses to its value. */
  lemma ParseSingle(c: char)
    requires IsHexDigit(c)
    ensures ParseIntHex([c]) == Some(DigitValue(c))
  {
    HexDigitIsPlain(c);
    assert TrimStart([c]) == [c];
    assert [c][1..] == [];
    assert HexPrefix([c]) == [c];
    assert DigitsValue([c]) == DigitValue(c) by {
      assert [c][..0] == [];
    }
  }

  /** Two digits at the front of the text form the first chunk. */
  lemma DecodePairThen(c0: char, c1: char, rest: string)
    requires IsHexDigit(c0) && IsHexDigit(c1)
    ensures Decode([c0, c1] + rest) == [ToUint8(Some(16 * DigitValue(c0) + DigitValue(c1)))] + Decode(rest)
  {
    var t := [c0, c1] + rest;
    HexDigitIsPlain(c0);
    HexDigitIsPlain(c1);
    assert t[..2] == [c0, c1] && t[2..] == rest;
    ParsePair(c0, c1);
    assert Chunks(t) == [[c0, c1]] + Chunks(rest);
    assert DecodeChunks(Chunks(t))[1..] == DecodeChunks(Chunks(rest)) by {
      assert Chunks(t)[1..] == Chunks(rest);
    }
  }

  /** `/.{1,2}/g` does not match line terminators: one at the front of the text is
      skipped rather than decoded. */
  lemma DecodeSkipThen(c: char, rest: string)
    requires IsLineTerminator(c)
    ensures Decode([c] + rest) == Decode(rest)
  {
    assert ([c] + rest)[1..] == rest;
  }

  /** A lone last digit, as an odd-length text ends with, is a chunk of its own and
      decodes to its value. */
  lemma DecodeLoneDigit(c: char)
    requires IsHexDigit(c)
    ensures Decode([c]) == [ToUint8(Some(DigitValue(c)))]
  {
    HexDigitIsPlain(c);
    assert [c][..1] == [c] && [c][1..] == [];
    assert Chunks([c]) == [[c]];
    ParseSingle(c);
  }
}
