/**
 * UTF-8 as RFC 3629 (section 4, "Syntax of UTF-8 Byte Sequences") defines it:
 * the decoding that `String::from_utf8` performs on the byte strings of a gcov
 * file, and the encoding that `str::as_bytes`/`str::len` observe.
 */
module Utf8 {
  import opened Options

  /** A byte as a number: the decoder reasons about code points arithmetically. */
  type Octet = x: int | 0 <= x < 256

  /** A continuation byte `80..BF`. */
  predicate IsTail(b: Octet)
  {
    0x80 <= b <= 0xBF
  }

  /** The smallest and largest second byte allowed after lead byte `b0` (RFC 3629 section 4). */
  function SecondLow(b0: Octet): Octet
  {
    if b0 == 0xE0 then 0xA0 else if b0 == 0xF0 then 0x90 else 0x80
  }

  function SecondHigh(b0: Octet): Octet
  {
    if b0 == 0xED then 0x9F else if b0 == 0xF4 then 0x8F else 0xBF
  }

  function Payload(b: Octet): int
  {
    b - 0x80
  }

  /**
   * Decodes the first character of a non-empty byte string: the character and
   * the number of bytes it occupies, or None when the prefix is not a
   * well-formed UTF-8 sequence.
   */
  function DecodeFirst(b: seq<Octet>): (r: Option<(char, nat)>)
    requires |b| > 0
    ensures r.Some? ==> 1 <= r.value.1 <= 4 && r.value.1 <= |b|
  {
    var b0 := b[0];
    if b0 < 0x80 then
      Some((b0 as char, 1))
    else if 0xC2 <= b0 <= 0xDF then
      if |b| >= 2 && IsTail(b[1]) then
        var cp := (b0 - 0xC0) * 64 + Payload(b[1]);
        Some((cp as char, 2))
      else None
    else if 0xE0 <= b0 <= 0xEF then
      if |b| >= 3 && SecondLow(b0) <= b[1] <= SecondHigh(b0) && IsTail(b[2]) then
        var cp := (b0 - 0xE0) * 4096 + Payload(b[1]) * 64 + Payload(b[2]);
        Some((cp as char, 3))
      else None
    else if 0xF0 <= b0 <= 0xF4 then
      if |b| >= 4 && SecondLow(b0) <= b[1] <= SecondHigh(b0) && IsTail(b[2]) && IsTail(b[3]) then
        var cp := (b0 - 0xF0) * 262144 + Payload(b[1]) * 4096 + Payload(b[2]) * 64 + Payload(b[3]);
        Some((cp as char, 4))
      else None
    else None
  }

  /** `String::from_utf8`: the decoded text, or None when the bytes are not well-formed UTF-8. */
  function Decode(b: seq<Octet>): Option<string>
    decreases |b|
  {
    if b == [] then Some([])
    else
      match DecodeFirst(b)
      case None => None
      case Some((c, n)) =>
        match Decode(b[n..])
        case None => None
        case Some(rest) => Some([c] + rest)
  }

  /** The UTF-8 encoding of one character. */
  function EncodeChar(c: char): (r: seq<Octet>)
    ensures 1 <= |r| <= 4
  {
    var cp := c as int;
    if cp < 0x80 then
      [cp]
    else if cp < 0x800 then
      [(0xC0 + cp / 64), (0x80 + cp % 64)]
    else if cp < 0x10000 then
      [(0xE0 + cp / 4096), (0x80 + cp / 64 % 64), (0x80 + cp % 64)]
    else
      [(0xF0 + cp / 262144), (0x80 + cp / 4096 % 64), (0x80 + cp / 64 % 64),
       (0x80 + cp % 64)]
  }

  /** `str::as_bytes`: the UTF-8 encoding of a string. */
  function Encode(s: string): seq<Octet>
  {
    if s == [] then [] else EncodeChar(s[0]) + Encode(s[1..])
  }

  /** An ASCII string's encoding is one byte per character, each its code. */
  lemma {:induction false} EncodeAscii(s: string)
    requires forall i :: 0 <= i < |s| ==> s[i] < 128 as char
    ensures |Encode(s)| == |s|
    ensures forall i :: 0 <= i < |s| ==> Encode(s)[i] == s[i] as int
  {
    if s != [] {
      EncodeAscii(s[1..]);
      assert Encode(s) == [s[0] as int] + Encode(s[1..]);
    }
  }

  /** An encoding made only of bytes below 128 comes from an ASCII string, one character per byte. */
  lemma {:induction false} AsciiEncoding(s: string)
    requires forall i :: 0 <= i < |Encode(s)| ==> Encode(s)[i] < 128
    ensures |s| == |Encode(s)|
    ensures forall i :: 0 <= i < |s| ==> s[i] as int == Encode(s)[i]
  {
    if s != [] {
      var e := Encode(s);
      assert e == EncodeChar(s[0]) + Encode(s[1..]);
      assert e[0] == EncodeChar(s[0])[0];
      assert s[0] as int < 0x80;
      assert forall i :: 0 <= i < |Encode(s[1..])| ==> Encode(s[1..])[i] == e[i + 1];
      AsciiEncoding(s[1..]);
    }
  }

  /** Each encoded character decodes back to itself, consuming exactly its bytes. */
  lemma DecodeEncodeChar(c: char, rest: seq<Octet>)
    ensures DecodeFirst(EncodeChar(c) + rest) == Some((c, |EncodeChar(c)|))
  {
    var cp := c as int;
    if cp < 0x80 {
    } else if cp < 0x800 {
      DecodeTwo(c, rest);
    } else if cp < 0x10000 {
      DecodeThree(c, rest);
    } else {
      DecodeFour(c, rest);
    }
  }

  lemma DecodeTwo(c: char, rest: seq<Octet>)
    requires 0x80 <= c as int < 0x800
    ensures DecodeFirst(EncodeChar(c) + rest) == Some((c, 2))
  {
    var cp := c as int;
    var e := EncodeChar(c) + rest;
    assert e[0] == 0xC0 + cp / 64 && e[1] == 0x80 + cp % 64;
    assert (e[0] - 0xC0) * 64 + Payload(e[1]) == cp;
  }

  lemma DecodeThree(c: char, rest: seq<Octet>)
    requires 0x800 <= c as int < 0x10000
    ensures DecodeFirst(EncodeChar(c) + rest) == Some((c, 3))
  {
    var cp := c as int;
    var e := EncodeChar(c) + rest;
    assert e[0] == 0xE0 + cp / 4096 && e[1] == 0x80 + cp / 64 % 64 && e[2] == 0x80 + cp % 64;
    assert (e[0] - 0xE0) * 4096 + Payload(e[1]) * 64 + Payload(e[2]) == cp;
    assert SecondLow(e[0]) <= e[1] <= SecondHigh(e[0]);
  }

  lemma DecodeFour(c: char, rest: seq<Octet>)
    requires 0x10000 <= c as int
    ensures DecodeFirst(EncodeChar(c) + rest) == Some((c, 4))
  {
    var cp := c as int;
    var e := EncodeChar(c) + rest;
    assert e[0] == 0xF0 + cp / 262144 && e[1] == 0x80 + cp / 4096 % 64;
    assert e[2] == 0x80 + cp / 64 % 64 && e[3] == 0x80 + cp % 64;
    Digits4(cp);
    assert (e[0] - 0xF0) * 262144 + Payload(e[1]) * 4096 + Payload(e[2]) * 64 + Payload(e[3]) == cp;
    assert SecondLow(e[0]) <= e[1] <= SecondHigh(e[0]);
  }

  lemma Digits4(cp: int)
    requires 0x10000 <= cp < 0x110000
    ensures (cp / 262144) * 262144 + (cp / 4096 % 64) * 4096 + (cp / 64 % 64) * 64 + cp % 64 == cp
    ensures cp / 262144 == 0 ==> cp / 4096 % 64 >= 0x10
    ensures cp / 262144 == 4 ==> cp / 4096 % 64 < 0x10
  {
    var a, r1 := cp / 262144, cp % 262144;
    assert cp / 4096 == a * 64 + r1 / 4096;
    assert cp / 4096 % 64 == r1 / 4096;
    var r2 := r1 % 4096;
    assert cp / 64 == (a * 64 + r1 / 4096) * 64 + r2 / 64;
    assert cp / 64 % 64 == r2 / 64;
  }

  /** Decoding inverts encoding: every string survives a round trip through its UTF-8 bytes. */
  lemma {:induction false} DecodeEncode(s: string)
    ensures Decode(Encode(s)) == Some(s)
  {
    if s != [] {
      var e := Encode(s);
      assert e == EncodeChar(s[0]) + Encode(s[1..]);
      DecodeEncodeChar(s[0], Encode(s[1..]));
      assert e[|EncodeChar(s[0])|..] == Encode(s[1..]);
      DecodeEncode(s[1..]);
      assert [s[0]] + s[1..] == s;
    }
  }

  /** Octets known to be the encoding of `s` decode to `s`. */
  lemma DecodeEncoded(o: seq<Octet>, s: string)
    requires o == Encode(s)
    ensures Decode(o) == Some(s)
  {
    DecodeEncode(s);
  }

  /** A string not ending in NUL encodes to octets not ending in NUL. */
  lemma EncodeEnd(s: string)
    requires s == [] || s[|s| - 1] != 0 as char
    ensures Encode(s) == [] || Encode(s)[|Encode(s)| - 1] != 0
  {
    if s != [] {
      EncodeEndsNonZero(s);
    }
  }

  lemma {:induction false} EncodeEndsNonZero(s: string)
    requires s != [] && s[|s| - 1] != 0 as char
    ensures |Encode(s)| > 0 && Encode(s)[|Encode(s)| - 1] != 0
  {
    var e := EncodeChar(s[0]);
    if |s| == 1 {
      assert Encode(s) == e + Encode([]);
    } else {
      EncodeEndsNonZero(s[1..]);
      assert Encode(s) == e + Encode(s[1..]);
    }
  }
}
