/**
 * The base64 encoding of section 4 of RFC 4648: the standard alphabet
 * `A-Z a-z 0-9 + /` with `=` padding, as used by `base64::encode` and
 * `base64::decode` in core/lib/src/lib.rs.
 *
 * The decoder is the strict one of the RFC: the length is a multiple of four,
 * padding appears only at the end of the last quantum, and the bits that the
 * padding discards are zero. Under these rules decoding succeeds exactly on
 * the strings that encoding produces (EncodeDecode and DecodeEncode).
 */
module Base64 {
  import opened Wrappers
  import opened Bytes

  /** The character that stands for the 6-bit value `v`. */
  function CharOf(v: int): (c: char)
    requires 0 <= v < 64
    ensures c != '='
  {
    if v < 26 then ('A' as int + v) as char
    else if v < 52 then ('a' as int + (v - 26)) as char
    else if v < 62 then ('0' as int + (v - 52)) as char
    else if v == 62 then '+'
    else '/'
  }

  /** The 6-bit value of an alphabet character; `None` outside the alphabet. */
  function ValueOf(c: char): (r: Option<int>)
    ensures r.Some? ==> 0 <= r.value < 64 && CharOf(r.value) == c
  {
    if 'A' <= c <= 'Z' then Some(c as int - 'A' as int)
    else if 'a' <= c <= 'z' then Some(c as int - 'a' as int + 26)
    else if '0' <= c <= '9' then Some(c as int - '0' as int + 52)
    else if c == '+' then Some(62)
    else if c == '/' then Some(63)
    else None
  }

  lemma ValueOfCharOf(v: int)
    requires 0 <= v < 64
    ensures ValueOf(CharOf(v)) == Some(v)
  {
  }

  /** A full quantum: three octets become four characters. */
  function EncodeQuantum(b0: byte, b1: byte, b2: byte): string {
    [CharOf(b0 / 4), CharOf((b0 % 4) * 16 + b1 / 16), CharOf((b1 % 16) * 4 + b2 / 64), CharOf(b2 % 64)]
  }

  function Encode(b: seq<byte>): (s: string)
    ensures |s| == (|b| + 2) / 3 * 4
  {
    if |b| == 0 then ""
    else if |b| == 1 then [CharOf(b[0] / 4), CharOf((b[0] % 4) * 16), '=', '=']
    else if |b| == 2 then [CharOf(b[0] / 4), CharOf((b[0] % 4) * 16 + b[1] / 16), CharOf((b[1] % 16) * 4), '=']
    else EncodeQuantum(b[0], b[1], b[2]) + Encode(b[3..])
  }

  /** Four alphabet characters, no padding. */
  function DecodeQuantum(s: string): (r: Option<seq<byte>>)
    requires |s| == 4
    ensures r.Some? ==> |r.value| == 3
  {
    match (ValueOf(s[0]), ValueOf(s[1]), ValueOf(s[2]), ValueOf(s[3]))
    case (Some(v0), Some(v1), Some(v2), Some(v3)) =>
      Some([v0 * 4 + v1 / 16, (v1 % 16) * 16 + v2 / 4, (v2 % 4) * 64 + v3])
    case _ => None
  }

  /** The last quantum, which may end in one or two `=`. */
  function DecodeFinal(s: string): (r: Option<seq<byte>>)
    requires |s| == 4
    ensures r.Some? ==> 1 <= |r.value| <= 3
  {
    if s[2] == '=' && s[3] == '=' then
      match (ValueOf(s[0]), ValueOf(s[1]))
      case (Some(v0), Some(v1)) =>
        if v1 % 16 == 0 then Some([v0 * 4 + v1 / 16]) else None
      case _ => None
    else if s[3] == '=' then
      match (ValueOf(s[0]), ValueOf(s[1]), ValueOf(s[2]))
      case (Some(v0), Some(v1), Some(v2)) =>
        if v2 % 4 == 0 then Some([v0 * 4 + v1 / 16, (v1 % 16) * 16 + v2 / 4]) else None
      case _ => None
    else
      DecodeQuantum(s)
  }

  /** Strict decoding: whole quanta only, padding only in the last one. */
  function Decode(s: string): (r: Option<seq<byte>>)
    ensures r.Some? ==> |s| % 4 == 0 && 4 * |r.value| <= 3 * |s|
  {
    if |s| == 0 then Some([])
    else if |s| < 4 then None
    else if |s| == 4 then DecodeFinal(s)
    else
      match DecodeQuantum(s[..4])
      case None => None
      case Some(head) =>
        match Decode(s[4..])
        case None => None
        case Some(tail) => Some(head + tail)
  }

  /** The four sextets of three octets join back into those octets. */
  lemma OctetsToSextets(b0: byte, b1: byte, b2: byte)
    ensures var c0, c1, c2, c3 := b0 / 4, (b0 % 4) * 16 + b1 / 16, (b1 % 16) * 4 + b2 / 64, b2 % 64;
      && 0 <= c0 < 64 && 0 <= c1 < 64 && 0 <= c2 < 64 && 0 <= c3 < 64
      && c0 * 4 + c1 / 16 == b0 && (c1 % 16) * 16 + c2 / 4 == b1 && (c2 % 4) * 64 + c3 == b2
  {
    var h0, l0, h1, l1, h2, l2 := b0 / 4, b0 % 4, b1 / 16, b1 % 16, b2 / 64, b2 % 64;
    assert b0 == h0 * 4 + l0 && b1 == h1 * 16 + l1 && b2 == h2 * 64 + l2;
    assert (l0 * 16 + h1) / 16 == l0 && (l0 * 16 + h1) % 16 == h1;
    assert (l1 * 4 + h2) / 4 == l1 && (l1 * 4 + h2) % 4 == h2;
  }

  lemma QuantumRoundTrip(b0: byte, b1: byte, b2: byte)
    ensures DecodeQuantum(EncodeQuantum(b0, b1, b2)) == Some([b0, b1, b2])
  {
    OctetsToSextets(b0, b1, b2);
    var c0, c1, c2, c3 := b0 / 4, (b0 % 4) * 16 + b1 / 16, (b1 % 16) * 4 + b2 / 64, b2 % 64;
    ValueOfCharOf(c0);
    ValueOfCharOf(c1);
    ValueOfCharOf(c2);
    ValueOfCharOf(c3);
    var q := EncodeQuantum(b0, b1, b2);
    assert q == [CharOf(c0), CharOf(c1), CharOf(c2), CharOf(c3)];
  }

  lemma EncodeLong(b: seq<byte>)
    requires |b| >= 3
    ensures Encode(b) == EncodeQuantum(b[0], b[1], b[2]) + Encode(b[3..])
  {
  }

  lemma OneOctetRoundTrip(b0: byte)
    ensures Decode(Encode([b0])) == Some([b0])
  {
    var v0, v1 := b0 / 4, (b0 % 4) * 16;
    ValueOfCharOf(v0);
    ValueOfCharOf(v1);
    var s := Encode([b0]);
    assert s == [CharOf(v0), CharOf(v1), '=', '='];
    assert v1 % 16 == 0 && v0 * 4 + v1 / 16 == b0;
    assert DecodeFinal(s) == Some([b0]);
  }

  lemma TwoOctetsRoundTrip(b0: byte, b1: byte)
    ensures Decode(Encode([b0, b1])) == Some([b0, b1])
  {
    var v0, v1, v2 := b0 / 4, (b0 % 4) * 16 + b1 / 16, (b1 % 16) * 4;
    ValueOfCharOf(v0);
    ValueOfCharOf(v1);
    ValueOfCharOf(v2);
    var s := Encode([b0, b1]);
    assert s == [CharOf(v0), CharOf(v1), CharOf(v2), '='];
    assert v2 % 4 == 0 && v0 * 4 + v1 / 16 == b0 && (v1 % 16) * 16 + v2 / 4 == b1;
    assert DecodeFinal(s) == Some([b0, b1]);
  }

  lemma ThreeOctetsRoundTrip(b: seq<byte>)
    requires |b| == 3
    ensures Decode(Encode(b)) == Some(b)
  {
    var s := Encode(b);
    assert s == EncodeQuantum(b[0], b[1], b[2]) + Encode(b[3..]);
    assert s == EncodeQuantum(b[0], b[1], b[2]);
    assert s[3] == CharOf(b[2] % 64) && s[3] != '=';
    QuantumRoundTrip(b[0], b[1], b[2]);
    assert DecodeFinal(s) == DecodeQuantum(s);
    assert b == [b[0], b[1], b[2]];
  }

  /** A full first quantum followed by more text decodes quantum by quantum. */
  lemma DecodeQuantumThenRest(q: string, rest: string)
    requires |q| == 4 && |rest| > 0 && DecodeQuantum(q).Some?
    ensures Decode(q + rest) == match Decode(rest)
                                case None => None
                                case Some(tail) => Some(DecodeQuantum(q).value + tail)
  {
    var s := q + rest;
    assert s[..4] == q && s[4..] == rest;
  }

  lemma ShortRoundTrip(b: seq<byte>)
    requires |b| <= 3
    ensures Decode(Encode(b)) == Some(b)
  {
    if |b| == 1 {
      OneOctetRoundTrip(b[0]);
      assert b == [b[0]];
    } else if |b| == 2 {
      TwoOctetsRoundTrip(b[0], b[1]);
      assert b == [b[0], b[1]];
    } else if |b| == 3 {
      ThreeOctetsRoundTrip(b);
    }
  }

  lemma FirstThree<T>(b: seq<T>)
    requires |b| >= 3
    ensures b == [b[0], b[1], b[2]] + b[3..]
  {
  }

  /** One full quantum in front of octets that already round-trip. */
  lemma QuantumStep(b: seq<byte>)
    requires |b| > 3 && Decode(Encode(b[3..])) == Some(b[3..])
    ensures Decode(Encode(b)) == Some(b)
  {
    var q, e := EncodeQuantum(b[0], b[1], b[2]), Encode(b[3..]);
    assert (|b[3..]| + 2) / 3 >= 1;
    assert |e| > 0;
    EncodeLong(b);
    QuantumRoundTrip(b[0], b[1], b[2]);
    DecodeQuantumThenRest(q, e);
    FirstThree(b);
  }

  /** Decoding undoes encoding. */
  lemma {:induction false} DecodeEncode(b: seq<byte>)
    ensures Decode(Encode(b)) == Some(b)
    decreases |b|
  {
    if |b| <= 3 {
      ShortRoundTrip(b);
    } else {
      DecodeEncode(b[3..]);
      QuantumStep(b);
    }
  }

  /** Splitting a 6-bit value at bit `k` and joining it back. */
  lemma SplitSextet(v: int, d: int)
    requires 0 <= v < 64 && (d == 4 || d == 16)
    ensures v == (v / d) * d + v % d && 0 <= v % d < d && 0 <= v / d < 64 / d
  {
  }

  /** The octets decoded from four sextets re-encode to the same sextets. */
  lemma SextetsCanonical(v0: int, v1: int, v2: int, v3: int)
    requires 0 <= v0 < 64 && 0 <= v1 < 64 && 0 <= v2 < 64 && 0 <= v3 < 64
    ensures var b0, b1, b2 := v0 * 4 + v1 / 16, (v1 % 16) * 16 + v2 / 4, (v2 % 4) * 64 + v3;
      && 0 <= b0 < 256 && 0 <= b1 < 256 && 0 <= b2 < 256
      && b0 / 4 == v0 && (b0 % 4) * 16 + b1 / 16 == v1
      && (b1 % 16) * 4 + b2 / 64 == v2 && b2 % 64 == v3
  {
    SplitSextet(v1, 16);
    SplitSextet(v2, 4);
    var h1, l1, h2, l2 := v1 / 16, v1 % 16, v2 / 4, v2 % 4;
    assert (v0 * 4 + h1) / 4 == v0 && (v0 * 4 + h1) % 4 == h1;
    assert (l1 * 16 + h2) / 16 == l1 && (l1 * 16 + h2) % 16 == h2;
    assert (l2 * 64 + v3) / 64 == l2 && (l2 * 64 + v3) % 64 == v3;
  }

  lemma QuantumCanonical(s: string)
    requires |s| == 4 && DecodeQuantum(s).Some?
    ensures var d := DecodeQuantum(s).value; EncodeQuantum(d[0], d[1], d[2]) == s
  {
    var v0, v1, v2, v3 := ValueOf(s[0]).value, ValueOf(s[1]).value, ValueOf(s[2]).value, ValueOf(s[3]).value;
    SextetsCanonical(v0, v1, v2, v3);
  }

  lemma OnePadCanonical(s: string)
    requires |s| == 4 && s[2] == '=' && s[3] == '=' && DecodeFinal(s).Some?
    ensures Encode(DecodeFinal(s).value) == s
  {
    var v0, v1 := ValueOf(s[0]).value, ValueOf(s[1]).value;
    SextetsCanonical(v0, v1, 0, 0);
    var d0 := v0 * 4 + v1 / 16;
    assert DecodeFinal(s).value == [d0];
    assert d0 / 4 == v0 && (d0 % 4) * 16 == v1;
  }

  lemma TwoPadCanonical(s: string)
    requires |s| == 4 && s[2] != '=' && s[3] == '=' && DecodeFinal(s).Some?
    ensures Encode(DecodeFinal(s).value) == s
  {
    var v0, v1, v2 := ValueOf(s[0]).value, ValueOf(s[1]).value, ValueOf(s[2]).value;
    SextetsCanonical(v0, v1, v2, 0);
    var d0, d1 := v0 * 4 + v1 / 16, (v1 % 16) * 16 + v2 / 4;
    assert DecodeFinal(s).value == [d0, d1];
    assert (d1 % 16) * 4 == v2;
  }

  lemma FinalCanonical(s: string)
    requires |s| == 4 && DecodeFinal(s).Some?
    ensures Encode(DecodeFinal(s).value) == s
  {
    if s[2] == '=' && s[3] == '=' {
      OnePadCanonical(s);
    } else if s[3] == '=' {
      TwoPadCanonical(s);
    } else {
      var d := DecodeFinal(s).value;
      assert d == DecodeQuantum(s).value;
      QuantumCanonical(s);
      assert d[3..] == [];
      assert Encode(d) == EncodeQuantum(d[0], d[1], d[2]) + Encode(d[3..]);
    }
  }

  /** Every string that decodes is the encoding of what it decodes to. */
  lemma {:induction false} EncodeDecode(s: string)
    requires Decode(s).Some?
    ensures Encode(Decode(s).value) == s
  {
    if |s| == 0 {
    } else if |s| == 4 {
      FinalCanonical(s);
    } else {
      var head := DecodeQuantum(s[..4]).value;
      var tail := Decode(s[4..]).value;
      EncodeDecode(s[4..]);
      QuantumCanonical(s[..4]);
      var b := head + tail;
      assert b[..3] == head && b[3..] == tail;
      assert |tail| > 0 by {
        assert |Encode(tail)| == |s| - 4 > 0;
      }
      assert s == s[..4] + s[4..];
    }
  }

  /** A string decodes if and only if it is the encoding of some octets. */
  lemma DecodeSucceedsIffEncoding(s: string)
    ensures Decode(s).Some? <==> exists b :: Encode(b) == s
  {
    if Decode(s).Some? {
      EncodeDecode(s);
    }
    if b :| Encode(b) == s {
      DecodeEncode(b);
    }
  }

  /** The alphabet and bit order: the octets of "Man" and its prefixes. */
  lemma EncodeVectors()
    ensures Encode([77, 97, 110]) == "TWFu"
    ensures Encode([77, 97]) == "TWE="
    ensures Encode([77]) == "TQ=="
  {
  }
}
