/**
 * Strict UTF-8, as `String::from_utf8` applies it to a fetched spec: the
 * byte sequences of section 4 of RFC 3629, and nothing else (no overlong
 * forms, no surrogates, nothing above U+10FFFF).
 */
module Utf8 {
  import opened Wrappers

  type Byte = x: int | 0 <= x < 256

  predicate IsTail(b: Byte) {
    0x80 <= b <= 0xBF
  }

  /** The UTF-8 encoding of one Unicode scalar value. */
  function EncodeChar(c: char): (r: seq<Byte>)
    ensures 1 <= |r| <= 4
  {
    var n := c as int;
    if n < 0x80 then [n]
    else if n < 0x800 then [0xC0 + n / 64, 0x80 + n % 64]
    else if n < 0x1_0000 then [0xE0 + n / 4096, 0x80 + n / 64 % 64, 0x80 + n % 64]
    else [0xF0 + n / 262144, 0x80 + n / 4096 % 64, 0x80 + n / 64 % 64, 0x80 + n % 64]
  }

  /** The UTF-8 encoding of a string. */
  function Encode(s: string): seq<Byte> {
    if s == [] then [] else EncodeChar(s[0]) + Encode(s[1..])
  }

  /** A strictly valid byte sequence: the encoding of some string. */
  ghost predicate IsValidUtf8(b: seq<Byte>) {
    exists s :: Encode(s) == b
  }

  /** The second byte after a three-byte lead (UTF8-3 of RFC 3629). */
  predicate SecondOfThreeOk(b0: Byte, b1: Byte) {
    if b0 == 0xE0 then 0xA0 <= b1 <= 0xBF
    else if b0 == 0xED then 0x80 <= b1 <= 0x9F
    else IsTail(b1)
  }

  /** The second byte after a four-byte lead (UTF8-4 of RFC 3629). */
  predicate SecondOfFourOk(b0: Byte, b1: Byte) {
    if b0 == 0xF0 then 0x90 <= b1 <= 0xBF
    else if b0 == 0xF4 then 0x80 <= b1 <= 0x8F
    else IsTail(b1)
  }

  /**
   * The first character of a non-empty byte sequence and how many bytes it
   * takes, or None when the bytes do not start with a well-formed sequence.
   */
  function DecodeFirst(b: seq<Byte>): (r: Option<(char, nat)>)
    requires |b| > 0
    ensures r.Some? ==> 1 <= r.value.1 <= |b| && EncodeChar(r.value.0) == b[..r.value.1]
  {
    if b[0] < 0x80 then Some((b[0] as char, 1))
    else if 0xC2 <= b[0] <= 0xDF then DecodeTwo(b)
    else if 0xE0 <= b[0] <= 0xEF then DecodeThree(b)
    else if 0xF0 <= b[0] <= 0xF4 then DecodeFour(b)
    else None
  }

  /** UTF8-2: a lead byte C2..DF and one tail byte. */
  function DecodeTwo(b: seq<Byte>): (r: Option<(char, nat)>)
    requires |b| > 0 && 0xC2 <= b[0] <= 0xDF
    ensures r.Some? ==> r.value.1 == 2 <= |b| && EncodeChar(r.value.0) == b[..2]
  {
    if |b| >= 2 && IsTail(b[1]) then
      var n := (b[0] as int - 0xC0) * 64 + (b[1] as int - 0x80);
      EncodeTwo(b[0], b[1]);
      Some((n as char, 2))
    else None
  }

  /** UTF8-3: a lead byte E0..EF, a restricted second byte and one tail byte. */
  function DecodeThree(b: seq<Byte>): (r: Option<(char, nat)>)
    requires |b| > 0 && 0xE0 <= b[0] <= 0xEF
    ensures r.Some? ==> r.value.1 == 3 <= |b| && EncodeChar(r.value.0) == b[..3]
  {
    if |b| >= 3 && SecondOfThreeOk(b[0], b[1]) && IsTail(b[2]) then
      var n := (b[0] as int - 0xE0) * 4096 + (b[1] as int - 0x80) * 64 + (b[2] as int - 0x80);
      EncodeThree(b[0], b[1], b[2]);
      Some((n as char, 3))
    else None
  }

  /** UTF8-4: a lead byte F0..F4, a restricted second byte and two tail bytes. */
  function DecodeFour(b: seq<Byte>): (r: Option<(char, nat)>)
    requires |b| > 0 && 0xF0 <= b[0] <= 0xF4
    ensures r.Some? ==> r.value.1 == 4 <= |b| && EncodeChar(r.value.0) == b[..4]
  {
    if |b| >= 4 && SecondOfFourOk(b[0], b[1]) && IsTail(b[2]) && IsTail(b[3]) then
      var n := (b[0] as int - 0xF0) * 262144 + (b[1] as int - 0x80) * 4096
               + (b[2] as int - 0x80) * 64 + (b[3] as int - 0x80);
      EncodeFour(b[0], b[1], b[2], b[3]);
      Some((n as char, 4))
    else None
  }

  /** Taking a value apart into six-bit groups undoes putting it together. */
  lemma SixBits(q: nat, r: nat)
    requires r < 64
    ensures (q * 64 + r) / 64 == q && (q * 64 + r) % 64 == r
  {
  }

  lemma EncodeTwo(b0: Byte, b1: Byte)
    requires 0xC2 <= b0 <= 0xDF && IsTail(b1)
    ensures var n := (b0 as int - 0xC0) * 64 + (b1 as int - 0x80);
      0x80 <= n < 0x800 && n / 64 == b0 - 0xC0 && n % 64 == b1 - 0x80
  {
    SixBits(b0 - 0xC0, b1 - 0x80);
  }

  lemma EncodeThree(b0: Byte, b1: Byte, b2: Byte)
    requires 0xE0 <= b0 <= 0xEF && SecondOfThreeOk(b0, b1) && IsTail(b2)
    ensures var n := (b0 as int - 0xE0) * 4096 + (b1 as int - 0x80) * 64 + (b2 as int - 0x80);
      && 0x800 <= n < 0x1_0000 && !(0xD800 <= n < 0xE000)
      && n / 4096 == b0 - 0xE0 && n / 64 % 64 == b1 - 0x80 && n % 64 == b2 - 0x80
  {
    var hi: nat := (b0 - 0xE0) * 64 + (b1 - 0x80);
    var n := (b0 - 0xE0) * 4096 + (b1 - 0x80) * 64 + (b2 - 0x80);
    assert n == hi * 64 + (b2 - 0x80);
    SixBits(hi, b2 - 0x80);
    SixBits(b0 - 0xE0, b1 - 0x80);
    assert n / 4096 == hi / 64 by {
      assert n / 4096 == (n / 64) / 64;
    }
  }

  lemma EncodeFour(b0: Byte, b1: Byte, b2: Byte, b3: Byte)
    requires 0xF0 <= b0 <= 0xF4 && SecondOfFourOk(b0, b1) && IsTail(b2) && IsTail(b3)
    ensures var n := (b0 as int - 0xF0) * 262144 + (b1 as int - 0x80) * 4096
                     + (b2 as int - 0x80) * 64 + (b3 as int - 0x80);
      && 0x1_0000 <= n < 0x11_0000
      && n / 262144 == b0 - 0xF0 && n / 4096 % 64 == b1 - 0x80
      && n / 64 % 64 == b2 - 0x80 && n % 64 == b3 - 0x80
  {
    var top: nat := (b0 - 0xF0) * 64 + (b1 - 0x80);
    var mid: nat := top * 64 + (b2 - 0x80);
    var n := (b0 - 0xF0) * 262144 + (b1 - 0x80) * 4096 + (b2 - 0x80) * 64 + (b3 - 0x80);
    assert n == mid * 64 + (b3 - 0x80);
    SixBits(mid, b3 - 0x80);
    SixBits(top, b2 - 0x80);
    SixBits(b0 - 0xF0, b1 - 0x80);
    assert n / 4096 == mid / 64 by {
      assert n / 4096 == (n / 64) / 64;
    }
    assert n / 262144 == top / 64 by {
      assert n / 262144 == (n / 4096) / 64;
    }
  }

  /** `String::from_utf8`: the whole sequence decoded, or None at the first ill-formed byte. */
  function Decode(b: seq<Byte>): (r: Option<string>)
    ensures r.Some? ==> |r.value| <= |b|
    decreases |b|
  {
    if b == [] then Some([])
    else match DecodeFirst(b)
      case None => None
      case Some((c, k)) =>
        match Decode(b[k..])
        case None => None
        case Some(rest) => Some([c] + rest)
  }

  lemma SixBitGroups(n: nat)
    ensures n / 64 / 64 == n / 4096 && n / 4096 / 64 == n / 262144
    ensures n == n / 64 * 64 + n % 64
  {
  }

  /** Different characters have different encodings. */
  lemma EncodeCharInjective(c1: char, c2: char)
    requires EncodeChar(c1) == EncodeChar(c2)
    ensures c1 == c2
  {
    var n1, n2 := c1 as int, c2 as int;
    SixBitGroups(n1);
    SixBitGroups(n2);
    SixBitGroups(n1 / 64);
    SixBitGroups(n2 / 64);
    SixBitGroups(n1 / 4096);
    SixBitGroups(n2 / 4096);
  }

  /** The decoder reads back the first character of any encoding. */
  lemma DecodeFirstOfEncoding(c: char, rest: seq<Byte>)
    ensures DecodeFirst(EncodeChar(c) + rest) == Some((c, |EncodeChar(c)|))
  {
    var e := EncodeChar(c);
    var b := e + rest;
    var n := c as int;
    assert b[..|e|] == e;
    SixBitGroups(n);
    SixBitGroups(n / 64);
    if n < 0x80 {
    } else if n < 0x800 {
      assert 0xC2 <= b[0] <= 0xDF && IsTail(b[1]);
      var r := DecodeTwo(b);
      EncodeCharInjective(r.value.0, c);
    } else if n < 0x1_0000 {
      assert 0xE0 <= b[0] <= 0xEF && SecondOfThreeOk(b[0], b[1]) && IsTail(b[2]);
      var r := DecodeThree(b);
      EncodeCharInjective(r.value.0, c);
    } else {
      SixBitGroups(n / 4096);
      assert 0xF0 <= b[0] <= 0xF4 && SecondOfFourOk(b[0], b[1]) && IsTail(b[2]) && IsTail(b[3]);
      var r := DecodeFour(b);
      EncodeCharInjective(r.value.0, c);
    }
  }

  /** Decoding an encoded string gives the string back. */
  lemma {:induction false} DecodeEncode(s: string)
    ensures Decode(Encode(s)) == Some(s)
  {
    if s != [] {
      var e, tail := EncodeChar(s[0]), Encode(s[1..]);
      assert Encode(s) == e + tail;
      DecodeFirstOfEncoding(s[0], tail);
      assert (e + tail)[|e|..] == tail;
      DecodeEncode(s[1..]);
      assert [s[0]] + s[1..] == s;
    }
  }

  lemma {:induction false} EncodeConcat(c: char, s: string)
    ensures Encode([c] + s) == EncodeChar(c) + Encode(s)
  {
    assert ([c] + s)[1..] == s;
  }

  /** Whatever the decoder accepts encodes back to exactly the same bytes. */
  lemma {:induction false} EncodeDecode(b: seq<Byte>)
    ensures Decode(b).Some? ==> Encode(Decode(b).value) == b
  {
    if b != [] && Decode(b).Some? {
      var first := DecodeFirst(b);
      var c, k := first.value.0, first.value.1;
      var rest := Decode(b[k..]).value;
      assert Decode(b) == Some([c] + rest);
      EncodeDecode(b[k..]);
      EncodeConcat(c, rest);
      assert EncodeChar(c) + Encode(rest) == b[..k] + b[k..] == b;
    }
  }

  /** Strict decoding succeeds exactly on the valid UTF-8 byte sequences. */
  lemma DecodeSucceedsIffValid(b: seq<Byte>)
    ensures Decode(b).Some? <==> IsValidUtf8(b)
  {
    if Decode(b).Some? {
      EncodeDecode(b);
    }
    if IsValidUtf8(b) {
      var s :| Encode(s) == b;
      DecodeEncode(s);
    }
  }

  /** Overlong forms, surrogates and values above U+10FFFF are all refused. */
  lemma RejectsIllFormed()
    ensures Decode([0xC0, 0xAF]) == None                  // overlong '/'
    ensures Decode([0xE0, 0x80, 0xAF]) == None            // overlong '/'
    ensures Decode([0xED, 0xA0, 0x80]) == None            // surrogate U+D800
    ensures Decode([0xF4, 0x90, 0x80, 0x80]) == None      // U+110000
    ensures Decode([0x80]) == None                        // stray tail byte
    ensures Decode([0xE2, 0x82]) == None                  // truncated sequence
  {
  }
}
