/** encodeURIComponent and its inverse decodeURIComponent (section 19.2.6 of
    ECMA-262): percent-encoding of the UTF-8 bytes of every character outside
    the unreserved set, as in section 2.1 of RFC 3986. A Dafny `char` is a
    Unicode scalar value, so every string here is well-formed UTF-16 text. */
module UriComponent {
  import opened Wrappers

  type byte = b: int | 0 <= b < 256

  const HexDigits: string := "0123456789ABCDEF"

  /** The characters encodeURIComponent leaves as they are: letters, digits and
      the marks - _ . ! ~ * ' ( ) */
  predicate Unreserved(c: char) {
    || ('A' <= c <= 'Z')
    || ('a' <= c <= 'z')
    || ('0' <= c <= '9')
    || c == '-' || c == '_' || c == '.' || c == '!' || c == '~'
    || c == '*' || c == '\'' || c == '(' || c == ')'
  }

  predicate IsHexDigit(c: char) {
    ('0' <= c <= '9') || ('A' <= c <= 'F')
  }

  /** The UTF-8 encoding of one scalar value. */
  function Utf8(c: char): (bs: seq<byte>)
    ensures 1 <= |bs| <= 4
  {
    var cp := c as int;
    if cp < 0x80 then [cp]
    else if cp < 0x800 then [0xC0 + cp / 0x40, 0x80 + cp % 0x40]
    else if cp < 0x1_0000 then [0xE0 + cp / 0x1000, 0x80 + cp / 0x40 % 0x40, 0x80 + cp % 0x40]
    else [0xF0 + cp / 0x4_0000, 0x80 + cp / 0x1000 % 0x40, 0x80 + cp / 0x40 % 0x40, 0x80 + cp % 0x40]
  }

  /** "%XY" with upper-case hexadecimal digits. */
  function PercentByte(b: byte): string {
    ['%', HexDigits[b / 16], HexDigits[b % 16]]
  }

  function Percent(bs: seq<byte>): (s: string)
    ensures |s| == 3 * |bs|
  {
    if bs == [] then [] else PercentByte(bs[0]) + Percent(bs[1..])
  }

  function EncodeChar(c: char): string {
    if Unreserved(c) then [c] else Percent(Utf8(c))
  }

  /** encodeURIComponent(s) */
  function Encode(s: string): string {
    if s == [] then [] else EncodeChar(s[0]) + Encode(s[1..])
  }

  /* ---------------------------------------------------------------------
     decodeURIComponent(s); None where the built-in throws URIError.
     --------------------------------------------------------------------- */

  function HexValue(c: char): (r: Option<nat>)
    ensures r.Some? ==> r.value < 16
  {
    if '0' <= c <= '9' then Some(c as int - '0' as int)
    else if 'A' <= c <= 'F' then Some(c as int - 'A' as int + 10)
    else if 'a' <= c <= 'f' then Some(c as int - 'a' as int + 10)
    else None
  }

  /** The byte written as "%XY" at position i of s, if there is one. */
  function ByteAt(s: string, i: nat): Option<byte> {
    if i + 3 <= |s| && s[i] == '%' then
      var hi :- HexValue(s[i + 1]);
      var lo :- HexValue(s[i + 2]);
      Some(hi * 16 + lo)
    else None
  }

  /** The six payload bits of a continuation byte 10xxxxxx at position i. */
  function ContinuationAt(s: string, i: nat): (r: Option<nat>)
    ensures r.Some? ==> r.value < 0x40
  {
    var b :- ByteAt(s, i);
    if 0x80 <= b < 0xC0 then Some(b - 0x80) else None
  }

  /** The scalar value cp, if it is one and needed at least as many bytes as
      were read (no overlong forms). */
  function Scalar(cp: int, least: int): Option<char> {
    if least <= cp && (0 <= cp < 0xD800 || 0xE000 <= cp < 0x11_0000) then Some(cp as char) else None
  }

  /** The character whose percent-encoded UTF-8 sequence starts s, with the
      number of characters it takes. */
  function DecodeOne(s: string): (r: Option<(char, nat)>)
    ensures r.Some? ==> 3 <= r.value.1 <= |s|
  {
    var b0 :- ByteAt(s, 0);
    if b0 < 0x80 then Some((b0 as char, 3))
    else if b0 < 0xC2 then None
    else if b0 < 0xE0 then
      var p1 :- ContinuationAt(s, 3);
      var c :- Scalar((b0 - 0xC0) * 0x40 + p1, 0x80);
      Some((c, 6))
    else if b0 < 0xF0 then
      var p1 :- ContinuationAt(s, 3);
      var p2 :- ContinuationAt(s, 6);
      var c :- Scalar((b0 - 0xE0) * 0x1000 + p1 * 0x40 + p2, 0x800);
      Some((c, 9))
    else if b0 < 0xF5 then
      var p1 :- ContinuationAt(s, 3);
      var p2 :- ContinuationAt(s, 6);
      var p3 :- ContinuationAt(s, 9);
      var c :- Scalar((b0 - 0xF0) * 0x4_0000 + p1 * 0x1000 + p2 * 0x40 + p3, 0x1_0000);
      Some((c, 12))
    else None
  }

  /** decodeURIComponent(s) */
  function Decode(s: string): Option<string>
    decreases |s|
  {
    if s == [] then Some([])
    else if s[0] != '%' then
      var rest :- Decode(s[1..]);
      Some([s[0]] + rest)
    else
      var d :- DecodeOne(s);
      var rest :- Decode(s[d.1..]);
      Some([d.0] + rest)
  }

  function Prepend(c: char, r: Option<string>): Option<string> {
    match r
    case None => None
    case Some(t) => Some([c] + t)
  }

  /* ---------------------------------------------------------------------
     Properties
     --------------------------------------------------------------------- */

  /** An encoded string holds only unreserved characters, '%' and hex digits;
      in particular never the query separators '&' and '='. */
  lemma {:induction false} EncodeAvoidsSeparators(s: string)
    ensures forall i :: 0 <= i < |Encode(s)| ==> Unreserved(Encode(s)[i]) || Encode(s)[i] == '%' || IsHexDigit(Encode(s)[i])
    ensures '&' !in Encode(s) && '=' !in Encode(s)
  {
    if s != [] {
      EncodeAvoidsSeparators(s[1..]);
      var e := EncodeChar(s[0]);
      if !Unreserved(s[0]) {
        PercentAlphabet(Utf8(s[0]));
      }
      var r := Encode(s[1..]);
      assert Encode(s) == e + r;
      forall i | 0 <= i < |e + r|
        ensures Unreserved((e + r)[i]) || (e + r)[i] == '%' || IsHexDigit((e + r)[i])
      {
        if i >= |e| {
          assert (e + r)[i] == r[i - |e|];
        }
      }
    }
  }

  lemma {:induction false} PercentAlphabet(bs: seq<byte>)
    ensures forall i :: 0 <= i < |Percent(bs)| ==> Percent(bs)[i] == '%' || IsHexDigit(Percent(bs)[i])
  {
    if bs != [] {
      PercentAlphabet(bs[1..]);
      var h := PercentByte(bs[0]);
      var t := Percent(bs[1..]);
      assert Percent(bs) == h + t;
      assert IsHexDigit(HexDigits[bs[0] / 16]) && IsHexDigit(HexDigits[bs[0] % 16]);
      forall i | 0 <= i < |h + t|
        ensures (h + t)[i] == '%' || IsHexDigit((h + t)[i])
      {
        if i >= 3 {
          assert (h + t)[i] == t[i - 3];
        }
      }
    }
  }

  /** Encoding is empty exactly for the empty string. */
  lemma EncodeEmpty(s: string)
    ensures Encode(s) == [] <==> s == []
  {
    if s != [] {
      assert |EncodeChar(s[0])| >= 1;
    }
  }

  lemma HexRoundTrip(d: nat)
    requires d < 16
    ensures HexValue(HexDigits[d]) == Some(d)
  {
  }

  /** A "%XY" written by PercentByte reads back as its byte. */
  lemma ByteAtWritten(s: string, i: nat, b: byte)
    requires i + 3 <= |s| && s[i] == '%'
    requires s[i + 1] == HexDigits[b / 16] && s[i + 2] == HexDigits[b % 16]
    ensures ByteAt(s, i) == Some(b)
  {
    HexRoundTrip(b / 16);
    HexRoundTrip(b % 16);
  }

  lemma {:induction false} PercentChars(bs: seq<byte>, rest: string, k: nat)
    requires k < |bs|
    ensures 3 * k + 3 <= |Percent(bs) + rest|
    ensures (Percent(bs) + rest)[3 * k] == '%'
    ensures (Percent(bs) + rest)[3 * k + 1] == HexDigits[bs[k] / 16]
    ensures (Percent(bs) + rest)[3 * k + 2] == HexDigits[bs[k] % 16]
  {
    var t := Percent(bs[1..]) + rest;
    var s := PercentByte(bs[0]) + t;
    assert Percent(bs) + rest == s;
    if k > 0 {
      PercentChars(bs[1..], rest, k - 1);
      var j := 3 * (k - 1);
      assert s[j + 3] == t[j] && s[j + 4] == t[j + 1] && s[j + 5] == t[j + 2];
    }
  }

  lemma {:induction false} PercentByteAt(bs: seq<byte>, rest: string, k: nat)
    requires k < |bs|
    ensures ByteAt(Percent(bs) + rest, 3 * k) == Some(bs[k])
  {
    var s := Percent(bs) + rest;
    var i := 3 * k;
    PercentChars(bs, rest, k);
    assert i + 3 <= |s| && s[i] == '%';
    ByteAtWritten(s, i, bs[k]);
  }

  lemma {:induction false} PercentSuffix(bs: seq<byte>, rest: string)
    ensures (Percent(bs) + rest)[3 * |bs|..] == rest
    ensures |bs| > 0 ==> (Percent(bs) + rest)[0] == '%'
  {
  }

  lemma TwoByteRoundTrip(cp: int)
    requires 0x80 <= cp < 0x800
    ensures ((0xC0 + cp / 0x40) - 0xC0) * 0x40 + cp % 0x40 == cp
    ensures 0xC2 <= 0xC0 + cp / 0x40 < 0xE0
  {
  }

  lemma ThreeByteRoundTrip(cp: int)
    requires 0x800 <= cp < 0x1_0000
    ensures cp / 0x1000 * 0x1000 + cp / 0x40 % 0x40 * 0x40 + cp % 0x40 == cp
    ensures 0xE0 <= 0xE0 + cp / 0x1000 < 0xF0
  {
    var q := cp / 0x40;
    assert cp == q * 0x40 + cp % 0x40;
    assert q == q / 0x40 * 0x40 + q % 0x40;
    assert cp / 0x1000 == q / 0x40;
  }

  lemma FourByteRoundTrip(cp: int)
    requires 0x1_0000 <= cp < 0x11_0000
    ensures cp / 0x4_0000 * 0x4_0000 + cp / 0x1000 % 0x40 * 0x1000 + cp / 0x40 % 0x40 * 0x40 + cp % 0x40 == cp
    ensures 0xF0 <= 0xF0 + cp / 0x4_0000 < 0xF5
  {
    var q := cp / 0x40;
    var p := q / 0x40;
    assert cp == q * 0x40 + cp % 0x40;
    assert q == p * 0x40 + q % 0x40;
    assert p == p / 0x40 * 0x40 + p % 0x40;
    assert cp / 0x1000 == p;
    assert cp / 0x4_0000 == p / 0x40;
  }

  /** The percent-encoded UTF-8 form of a character decodes back to it. */
  lemma DecodeOneEncoded(c: char, rest: string)
    ensures DecodeOne(Percent(Utf8(c)) + rest) == Some((c, 3 * |Utf8(c)|))
  {
    var cp := c as int;
    if cp < 0x80 {
      PercentByteAt(Utf8(c), rest, 0);
    } else if cp < 0x800 {
      DecodeTwoBytes(c, rest);
    } else if cp < 0x1_0000 {
      DecodeThreeBytes(c, rest);
    } else {
      DecodeFourBytes(c, rest);
    }
  }

  /** A continuation byte 0x80 + p written by PercentByte reads back as p. */
  lemma ContinuationWritten(bs: seq<byte>, rest: string, k: nat, p: int)
    requires k < |bs| && 0 <= p < 0x40 && bs[k] == 0x80 + p
    ensures ContinuationAt(Percent(bs) + rest, 3 * k) == Some(p)
  {
    PercentByteAt(bs, rest, k);
  }

  /** A character needing at least `least` as code point is read back. */
  lemma ScalarOf(c: char, least: int)
    requires least <= c as int
    ensures Scalar(c as int, least) == Some(c)
  {
  }

  lemma ReadTwo(s: string, b0: int, p1: int, c: char)
    requires ByteAt(s, 0) == Some(b0) && 0xC2 <= b0 < 0xE0
    requires ContinuationAt(s, 3) == Some(p1)
    requires (b0 - 0xC0) * 0x40 + p1 == c as int >= 0x80
    ensures DecodeOne(s) == Some((c, 6))
  {
    ScalarOf(c, 0x80);
  }

  lemma ReadThree(s: string, b0: int, p1: int, p2: int, c: char)
    requires ByteAt(s, 0) == Some(b0) && 0xE0 <= b0 < 0xF0
    requires ContinuationAt(s, 3) == Some(p1) && ContinuationAt(s, 6) == Some(p2)
    requires (b0 - 0xE0) * 0x1000 + p1 * 0x40 + p2 == c as int >= 0x800
    ensures DecodeOne(s) == Some((c, 9))
  {
    ScalarOf(c, 0x800);
  }

  lemma ReadFour(s: string, b0: int, p1: int, p2: int, p3: int, c: char)
    requires ByteAt(s, 0) == Some(b0) && 0xF0 <= b0 < 0xF5
    requires ContinuationAt(s, 3) == Some(p1) && ContinuationAt(s, 6) == Some(p2)
    requires ContinuationAt(s, 9) == Some(p3)
    requires (b0 - 0xF0) * 0x4_0000 + p1 * 0x1000 + p2 * 0x40 + p3 == c as int >= 0x1_0000
    ensures DecodeOne(s) == Some((c, 12))
  {
    ScalarOf(c, 0x1_0000);
  }

  lemma DecodeTwoBytes(c: char, rest: string)
    requires 0x80 <= c as int < 0x800
    ensures DecodeOne(Percent(Utf8(c)) + rest) == Some((c, 6))
  {
    var cp := c as int;
    var bs := Utf8(c);
    var b0, p1 := 0xC0 + cp / 0x40, cp % 0x40;
    assert bs == [b0, 0x80 + p1];
    PercentByteAt(bs, rest, 0);
    ContinuationWritten(bs, rest, 1, p1);
    TwoByteRoundTrip(cp);
    ReadTwo(Percent(bs) + rest, b0, p1, c);
  }

  lemma DecodeThreeBytes(c: char, rest: string)
    requires 0x800 <= c as int < 0x1_0000
    ensures DecodeOne(Percent(Utf8(c)) + rest) == Some((c, 9))
  {
    var cp := c as int;
    var bs := Utf8(c);
    var b0, p1, p2 := 0xE0 + cp / 0x1000, cp / 0x40 % 0x40, cp % 0x40;
    assert bs == [b0, 0x80 + p1, 0x80 + p2];
    PercentByteAt(bs, rest, 0);
    ContinuationWritten(bs, rest, 1, p1);
    ContinuationWritten(bs, rest, 2, p2);
    ThreeByteRoundTrip(cp);
    assert (b0 - 0xE0) * 0x1000 + p1 * 0x40 + p2 == cp;
    ReadThree(Percent(bs) + rest, b0, p1, p2, c);
  }

  lemma DecodeFourBytes(c: char, rest: string)
    requires 0x1_0000 <= c as int
    ensures DecodeOne(Percent(Utf8(c)) + rest) == Some((c, 12))
  {
    var cp := c as int;
    var bs := Utf8(c);
    var b0, p1, p2, p3 := 0xF0 + cp / 0x4_0000, cp / 0x1000 % 0x40, cp / 0x40 % 0x40, cp % 0x40;
    assert bs == [b0, 0x80 + p1, 0x80 + p2, 0x80 + p3];
    PercentByteAt(bs, rest, 0);
    ContinuationWritten(bs, rest, 1, p1);
    ContinuationWritten(bs, rest, 2, p2);
    ContinuationWritten(bs, rest, 3, p3);
    FourByteRoundTrip(cp);
    assert b0 - 0xF0 == cp / 0x4_0000;
    assert (b0 - 0xF0) * 0x4_0000 + p1 * 0x1000 + p2 * 0x40 + p3 == cp;
    ReadFour(Percent(bs) + rest, b0, p1, p2, p3, c);
  }

  lemma DecodeEncodedChar(c: char, rest: string)
    ensures Decode(EncodeChar(c) + rest) == Prepend(c, Decode(rest))
  {
    var s := EncodeChar(c) + rest;
    if Unreserved(c) {
      assert s[0] == c && s[1..] == rest;
    } else {
      PercentSuffix(Utf8(c), rest);
      DecodeOneEncoded(c, rest);
    }
  }

  /** Round trip: decodeURIComponent(encodeURIComponent(s)) == s. */
  lemma {:induction false} DecodeEncode(s: string)
    ensures Decode(Encode(s)) == Some(s)
  {
    if s != [] {
      var e := Encode(s[1..]);
      DecodeEncode(s[1..]);
      DecodeEncodedChar(s[0], e);
      assert Encode(s) == EncodeChar(s[0]) + e;
      assert [s[0]] + s[1..] == s;
    }
  }
}
