/**
 * UTF-8 as defined by RFC 3629: the encoding Rust uses for every `String`.
 * `Encode` gives the octets of a string; `Decode` is `String::from_utf8`, which
 * accepts exactly the well-formed octet sequences of the RFC's table (no
 * overlong forms, no surrogates, nothing above U+10FFFF).
 */
module Utf8 {
  import opened Wrappers
  import opened Bytes

  /** The octets of one Unicode scalar value. */
  function EncodeChar(c: char): (b: seq<byte>)
    ensures 1 <= |b| <= 4
  {
    var n := c as int;
    var q1 := n / 64;
    var q2 := q1 / 64;
    var q3 := q2 / 64;
    if n < 0x80 then [n]
    else if n < 0x800 then [0xC0 + q1, 0x80 + n % 64]
    else if n < 0x1_0000 then [0xE0 + q2, 0x80 + q1 % 64, 0x80 + n % 64]
    else [0xF0 + q3, 0x80 + q2 % 64, 0x80 + q1 % 64, 0x80 + n % 64]
  }

  function Encode(s: string): (b: seq<byte>)
    ensures |b| >= |s|
  {
    if s == [] then [] else EncodeChar(s[0]) + Encode(s[1..])
  }

  predicate IsContinuation(x: byte) {
    0x80 <= x <= 0xBF
  }

  /** The six payload bits of a continuation octet. */
  function Payload(x: byte): int {
    x as int - 0x80
  }

  /**
   * The first scalar value of `b` and the number of octets it occupies, when
   * `b` starts with a well-formed sequence of the RFC's table.
   */
  function DecodeFirst(b: seq<byte>): (r: Option<(char, nat)>)
    requires |b| > 0
    ensures r.Some? ==> 1 <= r.value.1 <= |b|
  {
    var b0 := b[0] as int;
    if b0 < 0x80 then Some((b0 as char, 1))
    else if 0xC2 <= b0 <= 0xDF then
      if |b| >= 2 && IsContinuation(b[1]) then
        Some((((b0 - 0xC0) * 64 + Payload(b[1])) as char, 2))
      else None
    else if 0xE0 <= b0 <= 0xEF then
      if |b| >= 3
         && (if b0 == 0xE0 then 0xA0 <= b[1] <= 0xBF
             else if b0 == 0xED then 0x80 <= b[1] <= 0x9F
             else IsContinuation(b[1]))
         && IsContinuation(b[2])
      then
        Some((((b0 - 0xE0) * 4096 + Payload(b[1]) * 64 + Payload(b[2])) as char, 3))
      else None
    else if 0xF0 <= b0 <= 0xF4 then
      if |b| >= 4
         && (if b0 == 0xF0 then 0x90 <= b[1] <= 0xBF
             else if b0 == 0xF4 then 0x80 <= b[1] <= 0x8F
             else IsContinuation(b[1]))
         && IsContinuation(b[2]) && IsContinuation(b[3])
      then
        Some((((b0 - 0xF0) * 262144 + Payload(b[1]) * 4096 + Payload(b[2]) * 64 + Payload(b[3])) as char, 4))
      else None
    else None
  }

  /** `String::from_utf8`: the string whose octets `b` are, if there is one. */
  function Decode(b: seq<byte>): (r: Option<string>)
    ensures r.Some? ==> |r.value| <= |b|
    decreases |b|
  {
    if b == [] then Some([])
    else
      match DecodeFirst(b)
      case None => None
      case Some((c, k)) =>
        match Decode(b[k..])
        case None => None
        case Some(s) => Some([c] + s)
  }

  lemma DecodeFirstEncodeChar(c: char, rest: seq<byte>)
    ensures DecodeFirst(EncodeChar(c) + rest) == Some((c, |EncodeChar(c)|))
  {
    var n := c as int;
    var b := EncodeChar(c) + rest;
    var q1 := n / 64;
    var q2 := q1 / 64;
    var q3 := q2 / 64;
    if n < 0x80 {
    } else if n < 0x800 {
      assert n == q1 * 64 + n % 64;
    } else if n < 0x1_0000 {
      assert q1 == q2 * 64 + q1 % 64;
      assert n == q1 * 64 + n % 64;
      assert b[0] == 0xE0 + q2 && b[1] == 0x80 + q1 % 64 && b[2] == 0x80 + n % 64;
    } else {
      assert q2 == q3 * 64 + q2 % 64;
      assert q1 == q2 * 64 + q1 % 64;
      assert n == q1 * 64 + n % 64;
      assert b[0] == 0xF0 + q3 && b[1] == 0x80 + q2 % 64 && b[2] == 0x80 + q1 % 64 && b[3] == 0x80 + n % 64;
    }
  }

  lemma EncodeCharDecodeFirst(b: seq<byte>)
    requires |b| > 0 && DecodeFirst(b).Some?
    ensures var (c, k) := DecodeFirst(b).value; EncodeChar(c) == b[..k]
  {
    var (c, k) := DecodeFirst(b).value;
    var n := c as int;
    if k == 1 {
    } else if k == 2 {
      assert n / 64 == b[0] - 0xC0 && n % 64 == Payload(b[1]);
    } else if k == 3 {
      assert n / 64 == (b[0] as int - 0xE0) * 64 + Payload(b[1]) && n % 64 == Payload(b[2]);
    } else {
      assert n / 64 == (b[0] as int - 0xF0) * 4096 + Payload(b[1]) * 64 + Payload(b[2]) && n % 64 == Payload(b[3]);
      assert n / 64 / 64 == (b[0] as int - 0xF0) * 64 + Payload(b[1]);
    }
  }

  /** Decoding the octets of a string gives the string back. */
  lemma {:induction false} DecodeEncode(s: string)
    ensures Decode(Encode(s)) == Some(s)
  {
    if s != [] {
      var e := EncodeChar(s[0]);
      var b := Encode(s);
      assert b == e + Encode(s[1..]);
      DecodeFirstEncodeChar(s[0], Encode(s[1..]));
      assert b[|e|..] == Encode(s[1..]);
      DecodeEncode(s[1..]);
      assert s == [s[0]] + s[1..];
    }
  }

  /** Octets that decode are exactly the octets of the decoded string. */
  lemma {:induction false} EncodeDecode(b: seq<byte>)
    requires Decode(b).Some?
    ensures Encode(Decode(b).value) == b
    decreases |b|
  {
    if b != [] {
      var (c, k) := DecodeFirst(b).value;
      EncodeCharDecodeFirst(b);
      EncodeDecode(b[k..]);
      var s := Decode(b).value;
      assert s == [c] + Decode(b[k..]).value;
      assert s[1..] == Decode(b[k..]).value;
      assert b == b[..k] + b[k..];
    }
  }

  /** `String::from_utf8` fails exactly on octets that are no string's encoding. */
  lemma DecodeSucceedsIffEncoding(b: seq<byte>)
    ensures Decode(b).Some? <==> exists s :: Encode(s) == b
  {
    if Decode(b).Some? {
      EncodeDecode(b);
    }
    if s :| Encode(s) == b {
      DecodeEncode(s);
    }
  }

  /** Encoding distributes over concatenation. */
  lemma {:induction false} EncodeAppend(s: string, t: string)
    ensures Encode(s + t) == Encode(s) + Encode(t)
  {
    if s != [] {
      assert (s + t)[0] == s[0] && (s + t)[1..] == s[1..] + t;
      EncodeAppend(s[1..], t);
      assert Encode(s + t) == EncodeChar(s[0]) + Encode(s[1..] + t);
    } else {
      assert s + t == t;
    }
  }
}
