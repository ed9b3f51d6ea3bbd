/** The text conversions the codec relies on: Encoding.UTF8.GetBytes, Encoding.UTF8.GetString
    and the UTF-16 code-unit count that .NET reports as `string.Length`. A Dafny `char` is a
    Unicode scalar value, so a string here never holds a lone surrogate. */
module Utf8 {
  import opened Binary

  /** U+FFFD, which the decoder puts in place of ill-formed input. */
  const Replacement: char := '\U{FFFD}'

  predicate IsAscii(s: string)
  {
    forall k :: 0 <= k < |s| ==> s[k] as int < 0x80
  }

  /** UTF-8 form of one scalar value (1 to 4 bytes, shortest form). */
  function EncodeChar(c: char): (r: seq<Byte>)
    ensures 1 <= |r| <= 4
    ensures (|r| == 1) <==> (c as int < 0x80)
  {
    var cp := c as int;
    if cp < 0x80 then [cp]
    else if cp < 0x800 then [0xC0 + cp / 0x40, 0x80 + cp % 0x40]
    else if cp < 0x1_0000 then [0xE0 + cp / 0x1000, 0x80 + cp / 0x40 % 0x40, 0x80 + cp % 0x40]
    else [0xF0 + cp / 0x4_0000, 0x80 + cp / 0x1000 % 0x40, 0x80 + cp / 0x40 % 0x40, 0x80 + cp % 0x40]
  }

  /** Encoding.UTF8.GetBytes. */
  function Encode(s: string): (r: seq<Byte>)
    ensures |r| >= |s|
  {
    if s == [] then [] else EncodeChar(s[0]) + Encode(s[1..])
  }

  /** Number of UTF-16 code units of `s`: what `string.Length` counts. */
  function Utf16Length(s: string): (n: nat)
    ensures n >= |s|
  {
    if s == [] then 0 else (if s[0] as int < 0x1_0000 then 1 else 2) + Utf16Length(s[1..])
  }

  predicate IsContinuation(b: Byte) { 0x80 <= b < 0xC0 }

  /** Decodes the first character of `b` and says how many bytes it used. A well-formed
      sequence gives its scalar value; otherwise the longest prefix that could still have
      begun a well-formed sequence (at least one byte) is replaced by U+FFFD, the
      "maximal subpart" practice of the Unicode standard that .NET's decoder follows. */
  function DecodeStep(b: seq<Byte>): (r: (char, nat))
    requires |b| > 0
    ensures 1 <= r.1 <= |b| && r.1 <= 4
  {
    var b0 := b[0] as int;
    if b0 < 0x80 then (b0 as char, 1)
    else if 0xC2 <= b0 <= 0xDF then
      if |b| < 2 || !IsContinuation(b[1]) then (Replacement, 1)
      else (((b0 - 0xC0) * 0x40 + (b[1] - 0x80)) as char, 2)
    else if 0xE0 <= b0 <= 0xEF then
      var lo := if b0 == 0xE0 then 0xA0 else 0x80;
      var hi := if b0 == 0xED then 0x9F else 0xBF;
      if |b| < 2 || !(lo <= b[1] <= hi) then (Replacement, 1)
      else if |b| < 3 || !IsContinuation(b[2]) then (Replacement, 2)
      else ((((b0 - 0xE0) * 0x40 + (b[1] - 0x80)) * 0x40 + (b[2] - 0x80)) as char, 3)
    else if 0xF0 <= b0 <= 0xF4 then
      var lo := if b0 == 0xF0 then 0x90 else 0x80;
      var hi := if b0 == 0xF4 then 0x8F else 0xBF;
      if |b| < 2 || !(lo <= b[1] <= hi) then (Replacement, 1)
      else if |b| < 3 || !IsContinuation(b[2]) then (Replacement, 2)
      else if |b| < 4 || !IsContinuation(b[3]) then (Replacement, 3)
      else (((((b0 - 0xF0) * 0x40 + (b[1] - 0x80)) * 0x40 + (b[2] - 0x80)) * 0x40 + (b[3] - 0x80)) as char, 4)
    else (Replacement, 1)
  }

  /** Encoding.UTF8.GetString. */
  function Decode(b: seq<Byte>): (s: string)
    ensures |s| <= |b|
    decreases |b|
  {
    if b == [] then [] else
      var (c, n) := DecodeStep(b);
      [c] + Decode(b[n..])
  }

  /** The decoder reads one encoded character back, whatever follows it. */
  lemma DecodeStepOfEncodeChar(c: char, rest: seq<Byte>)
    ensures DecodeStep(EncodeChar(c) + rest) == (c, |EncodeChar(c)|)
  {
    var cp := c as int;
    var b := EncodeChar(c) + rest;
    if cp < 0x80 {
    } else if cp < 0x800 {
      DecodeTwo(b, cp, cp / 0x40, cp % 0x40);
    } else if cp < 0x1_0000 {
      SplitDigits(cp);
      DecodeThree(b, cp, cp / 0x1000, cp / 0x40 % 0x40, cp % 0x40);
    } else {
      SplitDigits(cp);
      DecodeFour(b, cp, cp / 0x4_0000, cp / 0x1000 % 0x40, cp / 0x40 % 0x40, cp % 0x40);
    }
  }

  /** The base-64 digits of a code point, as the encoder takes them apart. */
  lemma SplitDigits(cp: nat)
    ensures cp == 0x1000 * (cp / 0x1000) + 0x40 * (cp / 0x40 % 0x40) + cp % 0x40
    ensures cp / 0x1000 == 0x40 * (cp / 0x4_0000) + cp / 0x1000 % 0x40
  {
    var a := cp / 0x40;
    var d := a / 0x40;
    assert cp == 0x40 * a + cp % 0x40;
    assert a == 0x40 * d + a % 0x40;
    assert cp / 0x1000 == d;
    assert d / 0x40 == cp / 0x4_0000;
  }

  lemma DecodeTwo(b: seq<Byte>, cp: int, q: int, r: int)
    requires 0x80 <= cp < 0x800 && cp == 0x40 * q + r && 0 <= r < 0x40
    requires |b| >= 2 && b[0] == 0xC0 + q && b[1] == 0x80 + r
    ensures DecodeStep(b).0 as int == cp && DecodeStep(b).1 == 2
  {
  }

  lemma DecodeThree(b: seq<Byte>, cp: int, q2: int, q1: int, r: int)
    requires 0x800 <= cp < 0x1_0000 && !(0xD800 <= cp < 0xE000)
    requires cp == 0x1000 * q2 + 0x40 * q1 + r && 0 <= q1 < 0x40 && 0 <= r < 0x40
    requires |b| >= 3 && b[0] == 0xE0 + q2 && b[1] == 0x80 + q1 && b[2] == 0x80 + r
    ensures DecodeStep(b).0 as int == cp && DecodeStep(b).1 == 3
  {
  }

  lemma DecodeFour(b: seq<Byte>, cp: int, q3: int, q2: int, q1: int, r: int)
    requires 0x1_0000 <= cp < 0x11_0000
    requires cp == 0x4_0000 * q3 + 0x1000 * q2 + 0x40 * q1 + r
    requires 0 <= q2 < 0x40 && 0 <= q1 < 0x40 && 0 <= r < 0x40
    requires |b| >= 4 && b[0] == 0xF0 + q3 && b[1] == 0x80 + q2 && b[2] == 0x80 + q1 && b[3] == 0x80 + r
    ensures DecodeStep(b).0 as int == cp && DecodeStep(b).1 == 4
  {
  }

  /** GetString undoes GetBytes for every string. */
  lemma {:induction false} DecodeEncode(s: string)
    ensures Decode(Encode(s)) == s
  {
    if s != [] {
      var head := EncodeChar(s[0]);
      var rest := Encode(s[1..]);
      DecodeStepOfEncodeChar(s[0], rest);
      assert (head + rest)[|head|..] == rest;
      DecodeEncode(s[1..]);
    }
  }

  /** `string.Length` never exceeds the UTF-8 byte count, and the two agree exactly
      when the text is ASCII. */
  lemma {:induction false} Utf16LengthVersusUtf8(s: string)
    ensures Utf16Length(s) <= |Encode(s)|
    ensures (Utf16Length(s) == |Encode(s)|) <==> IsAscii(s)
  {
    if s != [] {
      Utf16LengthVersusUtf8(s[1..]);
      assert IsAscii(s) <==> s[0] as int < 0x80 && IsAscii(s[1..]) by {
        if s[0] as int < 0x80 && IsAscii(s[1..]) {
          forall k | 0 <= k < |s| ensures s[k] as int < 0x80 {
            if k > 0 { assert s[k] == s[1..][k - 1]; }
          }
        }
      }
    }
  }

  /** On ASCII text UTF-8 is the identity: one byte per character, equal to its code. */
  lemma {:induction false} EncodeAscii(s: string)
    requires IsAscii(s)
    ensures |Encode(s)| == |s|
    ensures forall k :: 0 <= k < |s| ==> Encode(s)[k] == s[k] as int
  {
    if s != [] {
      assert IsAscii(s[1..]) by {
        forall k | 0 <= k < |s| - 1 ensures s[1..][k] as int < 0x80 { assert s[1..][k] == s[k + 1]; }
      }
      EncodeAscii(s[1..]);
      assert s[0] as int < 0x80;
      forall k | 0 <= k < |s| ensures Encode(s)[k] == s[k] as int {
        if k > 0 { assert Encode(s)[k] == Encode(s[1..])[k - 1]; }
      }
    }
  }
}
