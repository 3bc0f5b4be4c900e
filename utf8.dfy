/** UTF-8 encoding of Unicode text: MySQL stores the utf8mb4 columns this way, and PHP's
    byte-level string functions see these bytes. */
module Utf8 {

  import Text
  import opened Wrappers

  newtype byte = x: int | 0 <= x < 256

  /** The one to four bytes of one code point. */
  function EncodeChar(c: char): (b: seq<byte>)
    ensures 1 <= |b| <= 4
    ensures (c as int < 0x80) == (|b| == 1)
    ensures |b| == 1 ==> b[0] as int == c as int
    ensures |b| > 1 ==> b[0] >= 0xC0
    ensures b[|b| - 1] < 0xC0
  {
    var n := c as int;
    if n < 0x80 then [n as byte]
    else if n < 0x800 then [(0xC0 + n / 64) as byte, (0x80 + n % 64) as byte]
    else if n < 0x10000 then [(0xE0 + n / 4096) as byte, (0x80 + (n / 64) % 64) as byte, (0x80 + n % 64) as byte]
    else [(0xF0 + n / 262144) as byte, (0x80 + (n / 4096) % 64) as byte, (0x80 + (n / 64) % 64) as byte, (0x80 + n % 64) as byte]
  }

  function Encode(s: string): seq<byte> {
    if s == [] then [] else Encode(s[..|s| - 1]) + EncodeChar(s[|s| - 1])
  }

  /** Encoding is a homomorphism from concatenation of text to concatenation of bytes. */
  lemma {:induction false} EncodeAppend(a: string, b: string)
    ensures Encode(a + b) == Encode(a) + Encode(b)
  {
    if b == [] {
      assert a + b == a;
    } else {
      var c, init, last := a + b, b[..|b| - 1], b[|b| - 1];
      assert c[..|c| - 1] == a + init && c[|c| - 1] == last;
      assert Encode(c) == Encode(a + init) + EncodeChar(last);
      assert Encode(b) == Encode(init) + EncodeChar(last);
      EncodeAppend(a, init);
      assert (Encode(a) + Encode(init)) + EncodeChar(last) == Encode(a) + (Encode(init) + EncodeChar(last));
    }
  }

  /** The encoding of a prefix of the text is a prefix of the encoding of the text. */
  lemma EncodePrefix(s: string, k: nat)
    requires k <= |s|
    ensures Text.IsPrefix(Encode(s[..k]), Encode(s))
  {
    assert s == s[..k] + s[k..];
    EncodeAppend(s[..k], s[k..]);
  }

  /** Text made of ASCII characters takes one byte per character. */
  lemma {:induction false} EncodeAscii(s: string)
    requires forall i :: 0 <= i < |s| ==> s[i] as int < 0x80
    ensures |Encode(s)| == |s|
    ensures forall i :: 0 <= i < |s| ==> Encode(s)[i] as int == s[i] as int
  {
    if s != [] {
      EncodeAscii(s[..|s| - 1]);
    }
  }

  predicate IsContinuation(x: byte) {
    0x80 <= x < 0xC0
  }

  /** The first code point of `b` and how many bytes it takes, under the strict rules that
      also reject overlong forms, surrogates and values past U+10FFFF. */
  function DecodeFirst(b: seq<byte>): (r: Option<(char, nat)>)
    requires b != []
    ensures r.Some? ==> 1 <= r.value.1 <= |b| && r.value.1 <= 4
    ensures r.Some? && r.value.1 > 1 ==> IsContinuation(b[r.value.1 - 1])
    ensures r.Some? && r.value.1 == 1 ==> b[0] < 0x80
  {
    var b0 := b[0] as int;
    if b0 < 0x80 then Some((b0 as char, 1))
    else if 0xC2 <= b0 < 0xE0 && |b| >= 2 && IsContinuation(b[1]) then
      Some((((b0 - 0xC0) * 64 + (b[1] as int - 0x80)) as char, 2))
    else if 0xE0 <= b0 < 0xF0 && |b| >= 3 && IsContinuation(b[1]) && IsContinuation(b[2]) then
      var n := (b0 - 0xE0) * 4096 + (b[1] as int - 0x80) * 64 + (b[2] as int - 0x80);
      if 0x800 <= n && !(0xD800 <= n < 0xE000) then Some((n as char, 3)) else None
    else if 0xF0 <= b0 < 0xF5 && |b| >= 4 && IsContinuation(b[1]) && IsContinuation(b[2]) && IsContinuation(b[3]) then
      var n := (b0 - 0xF0) * 262144 + (b[1] as int - 0x80) * 4096 + (b[2] as int - 0x80) * 64 + (b[3] as int - 0x80);
      if 0x10000 <= n < 0x110000 then Some((n as char, 4)) else None
    else None
  }

  /** The text `b` encodes, or None when `b` is not well-formed UTF-8. */
  function Decode(b: seq<byte>): Option<string>
    decreases |b|
  {
    if b == [] then Some([])
    else match DecodeFirst(b)
      case None => None
      case Some((c, k)) =>
        match Decode(b[k..])
        case None => None
        case Some(t) => Some([c] + t)
  }

  lemma DivSteps(n: nat)
    ensures n / 4096 == (n / 64) / 64
    ensures n / 262144 == (n / 4096) / 64
  {
    var q1, q2 := n / 64, (n / 64) / 64;
    assert n == 64 * q1 + n % 64;
    assert q1 == 64 * q2 + q1 % 64;
    assert n == 4096 * q2 + 64 * (q1 % 64) + n % 64;
    assert 0 <= 64 * (q1 % 64) + n % 64 < 4096;
    var q3 := q2 / 64;
    assert q2 == 64 * q3 + q2 % 64;
    assert n == 262144 * q3 + 4096 * (q2 % 64) + 64 * (q1 % 64) + n % 64;
  }

  lemma DecodeTwoBytes(c: char, rest: seq<byte>)
    requires 0x80 <= c as int < 0x800
    ensures DecodeFirst(EncodeChar(c) + rest) == Some((c, 2))
  {
    var n := c as int;
    var b := EncodeChar(c) + rest;
    assert b[0] as int == 0xC0 + n / 64 && b[1] as int == 0x80 + n % 64;
    assert (n / 64) * 64 + n % 64 == n;
  }

  lemma DecodeThreeBytes(c: char, rest: seq<byte>)
    requires 0x800 <= c as int < 0x10000
    ensures DecodeFirst(EncodeChar(c) + rest) == Some((c, 3))
  {
    var n := c as int;
    var b := EncodeChar(c) + rest;
    DivSteps(n);
    assert b[0] as int == 0xE0 + n / 4096 && b[1] as int == 0x80 + (n / 64) % 64 && b[2] as int == 0x80 + n % 64;
    assert (n / 4096) * 4096 + ((n / 64) % 64) * 64 + n % 64 == n;
  }

  lemma DecodeFourBytes(c: char, rest: seq<byte>)
    requires 0x10000 <= c as int
    ensures DecodeFirst(EncodeChar(c) + rest) == Some((c, 4))
  {
    var n := c as int;
    var b := EncodeChar(c) + rest;
    DivSteps(n);
    assert b[0] as int == 0xF0 + n / 262144 && b[1] as int == 0x80 + (n / 4096) % 64;
    assert b[2] as int == 0x80 + (n / 64) % 64 && b[3] as int == 0x80 + n % 64;
    assert (n / 262144) * 262144 + ((n / 4096) % 64) * 4096 + ((n / 64) % 64) * 64 + n % 64 == n;
  }

  /** Decoding the front of a character's encoding gives back that character. */
  lemma DecodeFirstOfChar(c: char, rest: seq<byte>)
    ensures DecodeFirst(EncodeChar(c) + rest) == Some((c, |EncodeChar(c)|))
  {
    var n := c as int;
    if n < 0x80 {
    } else if n < 0x800 {
      DecodeTwoBytes(c, rest);
    } else if n < 0x10000 {
      DecodeThreeBytes(c, rest);
    } else {
      DecodeFourBytes(c, rest);
    }
  }

  /** Round trip: every text decodes back from its encoding. */
  lemma {:induction false} DecodeEncode(s: string)
    ensures Decode(Encode(s)) == Some(s)
    decreases |s|
  {
    if s != [] {
      assert s == [s[0]] + s[1..];
      EncodeAppend([s[0]], s[1..]);
      assert [s[0]][..0] == [];
      assert Encode([s[0]]) == EncodeChar(s[0]);
      var b := EncodeChar(s[0]) + Encode(s[1..]);
      DecodeFirstOfChar(s[0], Encode(s[1..]));
      assert b[|EncodeChar(s[0])|..] == Encode(s[1..]);
      DecodeEncode(s[1..]);
    }
  }

  /** Bytes that end on the first byte of a multi-byte sequence are not UTF-8. */
  lemma {:induction false} DecodeRejectsTrailingLead(b: seq<byte>)
    requires b != [] && b[|b| - 1] >= 0xC0
    ensures Decode(b) == None
    decreases |b|
  {
    var first := DecodeFirst(b);
    if first.Some? {
      var k := first.value.1;
      assert k < |b|;
      assert b[k..][|b[k..]| - 1] == b[|b| - 1];
      DecodeRejectsTrailingLead(b[k..]);
    }
  }

  /** Hence no text encodes to such bytes. */
  lemma EndsOnLeadByteIsNotText(b: seq<byte>)
    requires b != [] && b[|b| - 1] >= 0xC0
    ensures forall t: string :: Encode(t) != b
  {
    DecodeRejectsTrailingLead(b);
    forall t: string ensures Encode(t) != b {
      DecodeEncode(t);
    }
  }
}
