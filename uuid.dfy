/**
 * 128-bit UUIDs and their text forms (section 3 of RFC 4122), as far as the
 * relay code uses them: `Uuid::to_string` writes the lowercase hyphenated form
 * (8-4-4-4-12 hex digits) and `Uuid::parse_str` reads it back.
 */
module Uuids {
  import opened Wrappers
  import opened Bytes

  /** A UUID is its sixteen octets, most significant first. */
  type Uuid = b: seq<byte> | |b| == 16 witness seq(16, _ => 0)

  predicate IsLowerHexDigit(c: char) {
    '0' <= c <= '9' || 'a' <= c <= 'f'
  }

  /** The lowercase digit for a 4-bit value. */
  function HexDigit(v: int): (c: char)
    requires 0 <= v < 16
    ensures IsLowerHexDigit(c)
  {
    if v < 10 then ('0' as int + v) as char else ('a' as int + (v - 10)) as char
  }

  /** The value of a hex digit of either case. */
  function HexValue(c: char): (r: Option<int>)
    ensures r.Some? ==> 0 <= r.value < 16
  {
    if '0' <= c <= '9' then Some(c as int - '0' as int)
    else if 'a' <= c <= 'f' then Some(c as int - 'a' as int + 10)
    else if 'A' <= c <= 'F' then Some(c as int - 'A' as int + 10)
    else None
  }

  lemma HexValueHexDigit(v: int)
    requires 0 <= v < 16
    ensures HexValue(HexDigit(v)) == Some(v)
  {
  }

  /** Two lowercase hex digits per octet, high nibble first. */
  function Hex(b: seq<byte>): (s: string)
    ensures |s| == 2 * |b|
    ensures forall i :: 0 <= i < |s| ==> IsLowerHexDigit(s[i])
  {
    if b == [] then "" else [HexDigit(b[0] / 16), HexDigit(b[0] % 16)] + Hex(b[1..])
  }

  /** Octets from pairs of hex digits of either case. */
  function ParseHex(s: string): (r: Option<seq<byte>>)
    ensures r.Some? ==> |s| == 2 * |r.value|
  {
    if |s| == 0 then Some([])
    else if |s| == 1 then None
    else
      match (HexValue(s[0]), HexValue(s[1]), ParseHex(s[2..]))
      case (Some(hi), Some(lo), Some(rest)) => Some([hi * 16 + lo] + rest)
      case _ => None
  }

  lemma {:induction false} ParseHexHex(b: seq<byte>)
    ensures ParseHex(Hex(b)) == Some(b)
  {
    if b != [] {
      var s := Hex(b);
      HexValueHexDigit(b[0] / 16);
      HexValueHexDigit(b[0] % 16);
      assert s[2..] == Hex(b[1..]);
      ParseHexHex(b[1..]);
      assert b == [b[0]] + b[1..];
    }
  }

  predicate IsHyphenPosition(i: int) {
    i == 8 || i == 13 || i == 18 || i == 23
  }

  /** `Uuid::to_string`: the lowercase hyphenated form. */
  function Format(u: Uuid): (s: string)
    ensures |s| == 36
    ensures forall i :: 0 <= i < 36 ==> if IsHyphenPosition(i) then s[i] == '-' else IsLowerHexDigit(s[i])
  {
    Hex(u[..4]) + "-" + Hex(u[4..6]) + "-" + Hex(u[6..8]) + "-" + Hex(u[8..10]) + "-" + Hex(u[10..])
  }

  /** The 36-character form: hyphens at 8, 13, 18 and 23, hex digits between. */
  function ParseHyphenated(s: string): (r: Option<Uuid>)
    requires |s| == 36
  {
    if s[8] == '-' && s[13] == '-' && s[18] == '-' && s[23] == '-' then
      match (ParseHex(s[..8]), ParseHex(s[9..13]), ParseHex(s[14..18]), ParseHex(s[19..23]), ParseHex(s[24..]))
      case (Some(a), Some(b), Some(c), Some(d), Some(e)) => Some(a + b + c + d + e)
      case _ => None
    else None
  }

  /**
   * `Uuid::parse_str`, restricted to the simple (32 digits), hyphenated (36)
   * and URN (`urn:uuid:` then hyphenated) forms.
   */
  function Parse(s: string): (r: Option<Uuid>)
    ensures r.Some? ==> |s| == 32 || |s| == 36 || |s| == 45
  {
    if |s| == 32 then
      match ParseHex(s)
      case Some(b) => Some(b)
      case None => None
    else if |s| == 36 then ParseHyphenated(s)
    else if |s| == 45 && s[..9] == "urn:uuid:" then ParseHyphenated(s[9..])
    else None
  }

  /** Parsing the formatted UUID gives the UUID back. */
  lemma ParseFormat(u: Uuid)
    ensures Parse(Format(u)) == Some(u)
  {
    var s := Format(u);
    var h0, h1, h2, h3, h4 := Hex(u[..4]), Hex(u[4..6]), Hex(u[6..8]), Hex(u[8..10]), Hex(u[10..]);
    assert s == h0 + "-" + h1 + "-" + h2 + "-" + h3 + "-" + h4;
    assert s[..8] == h0;
    assert s[9..13] == h1;
    assert s[14..18] == h2;
    assert s[19..23] == h3;
    assert s[24..] == h4;
    ParseHexHex(u[..4]);
    ParseHexHex(u[4..6]);
    ParseHexHex(u[6..8]);
    ParseHexHex(u[8..10]);
    ParseHexHex(u[10..]);
    assert u == u[..4] + u[4..6] + u[6..8] + u[8..10] + u[10..];
  }

  lemma HexDigitHexValue(c: char)
    requires IsLowerHexDigit(c)
    ensures HexValue(c).Some? && HexDigit(HexValue(c).value) == c
  {
  }

  /** Lowercase digits that parse are the hex form of what they parse to. */
  lemma {:induction false} HexParseHex(s: string)
    requires ParseHex(s).Some?
    requires forall i :: 0 <= i < |s| ==> IsLowerHexDigit(s[i])
    ensures Hex(ParseHex(s).value) == s
  {
    if |s| >= 2 {
      var b := ParseHex(s).value;
      var hi, lo := HexValue(s[0]).value, HexValue(s[1]).value;
      HexDigitHexValue(s[0]);
      HexDigitHexValue(s[1]);
      assert b[0] == hi * 16 + lo && b[1..] == ParseHex(s[2..]).value;
      assert b[0] / 16 == hi && b[0] % 16 == lo;
      HexParseHex(s[2..]);
      assert s == [s[0], s[1]] + s[2..];
    }
  }

  lemma SegmentCanonical(s: string, lo: int, hi: int)
    requires 0 <= lo <= hi <= |s| && ParseHex(s[lo..hi]).Some?
    requires forall i :: lo <= i < hi ==> IsLowerHexDigit(s[i])
    ensures Hex(ParseHex(s[lo..hi]).value) == s[lo..hi]
  {
    var p := s[lo..hi];
    assert forall i :: 0 <= i < |p| ==> p[i] == s[lo + i];
    HexParseHex(p);
  }

  /** A 36-character string with hyphens in place is its five groups joined by hyphens. */
  lemma HyphenatedGroups(s: string)
    requires |s| == 36 && s[8] == '-' && s[13] == '-' && s[18] == '-' && s[23] == '-'
    ensures s == s[..8] + "-" + s[9..13] + "-" + s[14..18] + "-" + s[19..23] + "-" + s[24..]
  {
  }

  /** The five groups of a UUID are where its octets were concatenated. */
  lemma UuidGroups(a: seq<byte>, b: seq<byte>, c: seq<byte>, d: seq<byte>, e: seq<byte>)
    requires |a| == 4 && |b| == 2 && |c| == 2 && |d| == 2 && |e| == 6
    ensures var u := a + b + c + d + e;
      u[..4] == a && u[4..6] == b && u[6..8] == c && u[8..10] == d && u[10..] == e
  {
  }

  /**
   * The lowercase hyphenated form is canonical: a string of that shape that
   * parses is exactly the formatting of the UUID it parses to.
   */
  lemma FormatParseHyphenated(s: string)
    requires |s| == 36 && ParseHyphenated(s).Some?
    requires forall i :: 0 <= i < 36 && !IsHyphenPosition(i) ==> IsLowerHexDigit(s[i])
    ensures Format(ParseHyphenated(s).value) == s
  {
    var u := ParseHyphenated(s).value;
    SegmentCanonical(s, 0, 8);
    SegmentCanonical(s, 9, 13);
    SegmentCanonical(s, 14, 18);
    SegmentCanonical(s, 19, 23);
    assert s[24..36] == s[24..];
    SegmentCanonical(s, 24, 36);
    var a, b, c, d, e := ParseHex(s[..8]).value, ParseHex(s[9..13]).value, ParseHex(s[14..18]).value,
      ParseHex(s[19..23]).value, ParseHex(s[24..]).value;
    assert u == a + b + c + d + e;
    UuidGroups(a, b, c, d, e);
    HyphenatedGroups(s);
  }

  /** Hex digits of concatenated octets are concatenated. */
  lemma {:induction false} HexAppend(a: seq<byte>, b: seq<byte>)
    ensures Hex(a + b) == Hex(a) + Hex(b)
  {
    if a != [] {
      assert (a + b)[0] == a[0];
      assert (a + b)[1..] == a[1..] + b;
      HexAppend(a[1..], b);
    } else {
      assert a + b == b;
    }
  }

  /** Two octets written in hex. */
  lemma HexPair(x: byte, y: byte)
    ensures Hex([x, y]) == [HexDigit(x / 16), HexDigit(x % 16), HexDigit(y / 16), HexDigit(y % 16)]
  {
    assert [x, y][1..] == [y];
  }

  /** The user of the basic example: `92ba0c2d-4b4e-4e29-91dd-8f96a078c3ff`. */
  const ExampleUuid: Uuid := [0x92, 0xba, 0x0c, 0x2d, 0x4b, 0x4e, 0x4e, 0x29, 0x91, 0xdd, 0x8f, 0x96, 0xa0, 0x78, 0xc3, 0xff]

  /** The first group: four octets, eight digits. */
  lemma ExampleFirstGroup()
    ensures Hex(ExampleUuid[..4]) == "92ba0c2d"
  {
    HexPair(0x92, 0xba);
    HexPair(0x0c, 0x2d);
    assert ExampleUuid[..4] == [0x92, 0xba] + [0x0c, 0x2d];
    HexAppend([0x92, 0xba], [0x0c, 0x2d]);
  }

  /** The three middle groups: two octets, four digits each. */
  lemma ExampleMiddleGroups()
    ensures Hex(ExampleUuid[4..6]) == "4b4e"
    ensures Hex(ExampleUuid[6..8]) == "4e29"
    ensures Hex(ExampleUuid[8..10]) == "91dd"
  {
    HexPair(0x4b, 0x4e);
    HexPair(0x4e, 0x29);
    HexPair(0x91, 0xdd);
    assert ExampleUuid[4..6] == [0x4b, 0x4e];
    assert ExampleUuid[6..8] == [0x4e, 0x29];
    assert ExampleUuid[8..10] == [0x91, 0xdd];
  }

  /** The last group: six octets, twelve digits. */
  lemma ExampleLastGroup()
    ensures Hex(ExampleUuid[10..]) == "8f96a078c3ff"
  {
    HexPair(0x8f, 0x96);
    HexPair(0xa0, 0x78);
    HexPair(0xc3, 0xff);
    assert ExampleUuid[10..] == ([0x8f, 0x96] + [0xa0, 0x78]) + [0xc3, 0xff];
    HexAppend([0x8f, 0x96], [0xa0, 0x78]);
    HexAppend([0x8f, 0x96] + [0xa0, 0x78], [0xc3, 0xff]);
  }

  /** Digit order and case: the high nibble first, lowercase letters. */
  lemma FormatVector()
    ensures Format(ExampleUuid) == "92ba0c2d" + "-" + "4b4e" + "-" + "4e29" + "-" + "91dd" + "-" + "8f96a078c3ff"
  {
    ExampleFirstGroup();
    ExampleMiddleGroups();
    ExampleLastGroup();
  }
}
