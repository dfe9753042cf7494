/**
 * The `application/x-www-form-urlencoded` format of `URLSearchParams`, as the
 * WHATWG URL Standard defines it: the serializer of section 5.2 (UTF-8, then
 * percent-encoding with the form-urlencoded set and space as `+`, pairs joined
 * by `&` and `=`) and the parser of section 5.1 (split on `&`, skip empty
 * pieces, split at the first `=`, `+` to space, percent-decode, UTF-8 decode).
 */
module FormUrlEncoded {
  import opened Wrappers
  import opened Text

  type Byte = b: int | 0 <= b < 256

  // ---------------------------------------------------------------------------
  // UTF-8

  /** The UTF-8 encoding of one scalar value. The six-bit groups are taken by repeated
    * division by 64. */
  function EncodeChar(c: char): (r: seq<Byte>)
    ensures 1 <= |r| <= 4
    ensures (c as int < 0x80) <==> |r| == 1
    ensures |r| == 1 ==> r[0] == c as int
    ensures forall i :: 0 <= i < |r| ==> (r[i] < 0x80 <==> |r| == 1)
  {
    var n := c as int;
    var q1, r0 := n / 64, n % 64;
    var q2, r1 := q1 / 64, q1 % 64;
    var q3, r2 := q2 / 64, q2 % 64;
    if n < 0x80 then [n]
    else if n < 0x800 then [0xC0 + q1, 0x80 + r0]
    else if n < 0x10000 then [0xE0 + q2, 0x80 + r1, 0x80 + r0]
    else [0xF0 + q3, 0x80 + r2, 0x80 + r1, 0x80 + r0]
  }

  /** The UTF-8 encoding of a string. */
  function Utf8(s: string): (r: seq<Byte>)
    ensures |r| >= |s|
  {
    if s == [] then [] else EncodeChar(s[0]) + Utf8(s[1..])
  }

  predicate IsContinuation(b: Byte) { 0x80 <= b < 0xC0 }

  /** The scalar value a well-formed sequence at the start of `b` encodes, with its length;
    * None for an ill-formed start (an overlong form, a surrogate, a value past U+10FFFF,
    * a stray or missing continuation byte). */
  function DecodeFirst(b: seq<Byte>): (r: Option<(char, nat)>)
    requires b != []
    ensures r.Some? ==> 1 <= r.value.1 <= |b|
  {
    var b0 := b[0] as int;
    var b1, b2, b3 := (if |b| > 1 then b[1] else 0) as int, (if |b| > 2 then b[2] else 0) as int,
                      (if |b| > 3 then b[3] else 0) as int;
    if b0 < 0x80 then Some((b0 as char, 1))
    else if 0xC2 <= b0 < 0xE0 && |b| >= 2 && IsContinuation(b[1]) then
      Some((((b0 - 0xC0) * 64 + (b1 - 0x80)) as char, 2))
    else if 0xE0 <= b0 < 0xF0 && |b| >= 3 && IsContinuation(b[1]) && IsContinuation(b[2]) then
      var v := ((b0 - 0xE0) * 64 + (b1 - 0x80)) * 64 + (b2 - 0x80);
      if 0x800 <= v && !(0xD800 <= v < 0xE000) then Some((v as char, 3)) else None
    else if 0xF0 <= b0 < 0xF5 && |b| >= 4 && IsContinuation(b[1]) && IsContinuation(b[2]) && IsContinuation(b[3]) then
      var v := (((b0 - 0xF0) * 64 + (b1 - 0x80)) * 64 + (b2 - 0x80)) * 64 + (b3 - 0x80);
      if 0x10000 <= v < 0x110000 then Some((v as char, 4)) else None
    else None
  }

  /** UTF-8 decode without BOM: an ill-formed byte becomes U+FFFD. */
  function Utf8Decode(b: seq<Byte>): string
    decreases |b|
  {
    if b == [] then ""
    else match DecodeFirst(b)
      case Some((c, k)) => [c] + Utf8Decode(b[k..])
      case None => ['\U{FFFD}'] + Utf8Decode(b[1..])
  }

  /** The encoding of a character decodes to that character, whatever follows. */
  lemma DecodeEncodedChar(c: char, rest: seq<Byte>)
    ensures DecodeFirst(EncodeChar(c) + rest) == Some((c, |EncodeChar(c)|))
  {
    var n := c as int;
    var q1, r0 := n / 64, n % 64;
    var q2, r1 := q1 / 64, q1 % 64;
    var q3, r2 := q2 / 64, q2 % 64;
    assert n == q1 * 64 + r0 && q1 == q2 * 64 + r1 && q2 == q3 * 64 + r2;
  }

  /** Decoding the UTF-8 encoding of a string gives the string back. */
  lemma {:induction false} Utf8RoundTrip(s: string)
    ensures Utf8Decode(Utf8(s)) == s
  {
    if s != [] {
      var e := EncodeChar(s[0]);
      DecodeEncodedChar(s[0], Utf8(s[1..]));
      assert (e + Utf8(s[1..]))[|e|..] == Utf8(s[1..]);
      Utf8RoundTrip(s[1..]);
      assert s == [s[0]] + s[1..];
    }
  }

  // ---------------------------------------------------------------------------
  // Serializing (section 5.2)

  /** The bytes the form-urlencoded percent-encode set leaves alone: ASCII letters and digits
    * and `*`, `-`, `.`, `_`. */
  predicate Kept(b: Byte) {
    (0x30 <= b <= 0x39) || (0x41 <= b <= 0x5A) || (0x61 <= b <= 0x7A)
    || b == 0x2A || b == 0x2D || b == 0x2E || b == 0x5F
  }

  /** An upper-case hexadecimal digit. */
  function HexChar(n: int): (c: char)
    requires 0 <= n < 16
    ensures IsHexChar(c) && HexValue(c) == n
  {
    if n < 10 then (0x30 + n) as char else (0x41 + n - 10) as char
  }

  predicate IsHexChar(c: char) {
    ('0' <= c <= '9') || ('A' <= c <= 'F') || ('a' <= c <= 'f')
  }

  function HexValue(c: char): (v: int)
    requires IsHexChar(c)
    ensures 0 <= v < 16
  {
    if c <= '9' then c as int - 0x30 else if c <= 'F' then c as int - 0x41 + 10 else c as int - 0x61 + 10
  }

  /** One byte as it appears in the output: space as `+`, a kept byte as itself, any other as
    * `%` and two upper-case hex digits. */
  function EncodeByte(b: Byte): (r: string)
    ensures forall i :: 0 <= i < |r| ==> r[i] != '&' && r[i] != '='
  {
    if b == 0x20 then "+"
    else if Kept(b) then [b as char]
    else ['%', HexChar(b / 16), HexChar(b % 16)]
  }

  function EncodeBytes(bs: seq<Byte>): (r: string)
    ensures '&' !in r && '=' !in r
  {
    if bs == [] then "" else EncodeByte(bs[0]) + EncodeBytes(bs[1..])
  }

  /** A name or a value, percent-encoded. */
  function Encode(s: string): (r: string)
    ensures '&' !in r && '=' !in r
  {
    EncodeBytes(Utf8(s))
  }

  /** `name=value` for each pair. */
  function PairTexts(pairs: seq<(string, string)>): (r: seq<string>)
    ensures |r| == |pairs|
    ensures forall k :: 0 <= k < |r| ==> r[k] == Encode(pairs[k].0) + "=" + Encode(pairs[k].1)
  {
    seq(|pairs|, k requires 0 <= k < |pairs| => Encode(pairs[k].0) + "=" + Encode(pairs[k].1))
  }

  /** `URLSearchParams.toString()`. */
  function Serialize(pairs: seq<(string, string)>): (r: string)
    ensures pairs == [] <==> r == ""
  {
    var texts := PairTexts(pairs);
    if pairs == [] then ""
    else
      assert '=' in texts[0] by { assert texts[0][|Encode(pairs[0].0)|] == '='; }
      JoinNonEmpty(texts);
      Join(texts, "&")
  }

  lemma {:induction false} JoinNonEmpty(texts: seq<string>)
    requires texts != [] && texts[0] != []
    ensures Join(texts, "&") != []
  {
    if |texts| > 1 {
      assert Join(texts, "&") == texts[0] + "&" + Join(texts[1..], "&");
    }
  }

  // ---------------------------------------------------------------------------
  // Parsing (section 5.1)

  /** `+` becomes a space. */
  function PlusToSpace(s: string): string {
    ReplaceAll(s, '+', ' ')
  }

  /** Percent-decoding of a string: `%` and two hex digits give that byte; every other
    * character gives its UTF-8 bytes (the input is parsed as its UTF-8 encoding, and no
    * byte of a multi-byte character is `%`). */
  function PercentDecode(s: string): (r: seq<Byte>)
  {
    if s == [] then []
    else if s[0] == '%' && |s| >= 3 && IsHexChar(s[1]) && IsHexChar(s[2]) then
      [HexValue(s[1]) * 16 + HexValue(s[2])] + PercentDecode(s[3..])
    else EncodeChar(s[0]) + PercentDecode(s[1..])
  }

  function Decode(s: string): string {
    Utf8Decode(PercentDecode(PlusToSpace(s)))
  }

  /** One non-empty piece between `&`s: name and value split at the first `=`; a piece
    * without `=` is a name with an empty value. */
  function ParsePair(piece: string): (string, string) {
    if '=' in piece then
      var i := IndexOf(piece, '=');
      (Decode(piece[..i]), Decode(piece[i + 1..]))
    else (Decode(piece), "")
  }

  function ParsePieces(pieces: seq<string>): (r: seq<(string, string)>)
    ensures |r| <= |pieces|
  {
    if pieces == [] then []
    else if pieces[0] == [] then ParsePieces(pieces[1..])
    else [ParsePair(pieces[0])] + ParsePieces(pieces[1..])
  }

  /** `new URLSearchParams(input)`: its list of name-value pairs. */
  function Parse(input: string): (r: seq<(string, string)>) {
    ParsePieces(Split(input, '&'))
  }

  // ---------------------------------------------------------------------------
  // The round trip

  lemma PlusToSpaceAppend(a: string, b: string)
    ensures PlusToSpace(a + b) == PlusToSpace(a) + PlusToSpace(b)
  {
  }

  /** One encoded byte, once `+` is read as space, decodes to that byte. */
  lemma DecodeEncodedByte(b: Byte, rest: string)
    ensures PercentDecode(PlusToSpace(EncodeByte(b)) + rest) == [b] + PercentDecode(rest)
  {
    var e := PlusToSpace(EncodeByte(b));
    if b == 0x20 {
      assert e == " ";
      assert (e + rest)[1..] == rest;
    } else if Kept(b) {
      assert e == [b as char];
      assert (e + rest)[1..] == rest;
    } else {
      assert e == ['%', HexChar(b / 16), HexChar(b % 16)];
      assert (e + rest)[3..] == rest;
    }
  }

  lemma {:induction false} DecodeEncodedBytes(bs: seq<Byte>)
    ensures PercentDecode(PlusToSpace(EncodeBytes(bs))) == bs
  {
    if bs != [] {
      PlusToSpaceAppend(EncodeByte(bs[0]), EncodeBytes(bs[1..]));
      DecodeEncodedBytes(bs[1..]);
      DecodeEncodedByte(bs[0], PlusToSpace(EncodeBytes(bs[1..])));
      assert bs == [bs[0]] + bs[1..];
    }
  }

  /** Decoding an encoded name or value gives it back. */
  lemma DecodeEncode(s: string)
    ensures Decode(Encode(s)) == s
  {
    DecodeEncodedBytes(Utf8(s));
    Utf8RoundTrip(s);
  }

  lemma {:induction false} ParsePiecesOfTexts(pairs: seq<(string, string)>)
    ensures ParsePieces(PairTexts(pairs)) == pairs
  {
    if pairs != [] {
      var texts := PairTexts(pairs);
      var name, value := Encode(pairs[0].0), Encode(pairs[0].1);
      assert texts[0] == name + "=" + value;
      IndexOfFirst(name, '=', value);
      assert texts[0][..|name|] == name && texts[0][|name| + 1..] == value;
      DecodeEncode(pairs[0].0);
      DecodeEncode(pairs[0].1);
      assert texts[1..] == PairTexts(pairs[1..]);
      ParsePiecesOfTexts(pairs[1..]);
    }
  }

  /** Parsing what was serialized yields exactly the appended pairs, in order. */
  lemma ParseSerialize(pairs: seq<(string, string)>)
    ensures Parse(Serialize(pairs)) == pairs
  {
    if pairs == [] {
      assert Split("", '&') == [""];
    } else {
      var texts := PairTexts(pairs);
      assert forall k :: 0 <= k < |texts| ==> '&' !in texts[k] by {
        forall k | 0 <= k < |texts| ensures '&' !in texts[k] {
          assert texts[k] == Encode(pairs[k].0) + "=" + Encode(pairs[k].1);
        }
      }
      SplitJoin(texts, '&');
      ParsePiecesOfTexts(pairs);
    }
  }
}
