/** Passcode derivation. The source seeds System.Random with the first four bytes of
    HMAC-SHA256(secret, timestamp) and draws one digit per position. Neither primitive is
    defined here: a `Generator` stands for the whole chain and gives the i-th raw sample of
    the generator seeded for (secret, timestamp). What is modelled is the range reduction
    `Next(0, digits.Length - 1)` and the shape of the result. */
module Passcode {
  import opened Binary
  import Utf8

  /** The i-th raw sample of the random generator seeded from HMAC-SHA256(secret, t). */
  type Generator = (seq<Byte>, int, nat) -> nat

  /** The digit alphabet of the source: ten entries. */
  const Digits: string := "0123456789"

  /** Random.Next(minValue, maxValue) applied to a raw sample: the upper bound is
      exclusive, and an empty range gives `minValue`. */
  function Next(sample: nat, minValue: int, maxValue: int): (r: int)
    requires minValue <= maxValue
    ensures minValue <= r
    ensures r < maxValue || (r == minValue && minValue == maxValue)
  {
    if minValue == maxValue then minValue else minValue + sample % (maxValue - minValue)
  }

  /** The table index drawn for position `i`: `Next(0, digits.Length - 1)`. */
  function DigitIndex(draw: Generator, secret: seq<Byte>, t: int, i: nat): (d: int)
    ensures 0 <= d < |Digits| - 1
  {
    Next(draw(secret, t, i), 0, |Digits| - 1)
  }

  /** The passcode for `secret` at time step `t`: one table lookup per position. */
  function Code(draw: Generator, secret: seq<Byte>, t: int, length: int): (r: string)
    ensures |r| == (if length > 0 then length else 0)
  {
    var n := if length > 0 then length else 0;
    seq(n, k requires 0 <= k < n => Digits[DigitIndex(draw, secret, t, k)])
  }

  /** A passcode has `length` characters (none when the length is not positive), each an
      entry of the digit table other than its last: only '0' to '8' can appear. */
  lemma CodeShape(draw: Generator, secret: seq<Byte>, t: int, length: int)
    ensures |Code(draw, secret, t, length)| == (if length > 0 then length else 0)
    ensures forall k :: 0 <= k < |Code(draw, secret, t, length)| ==>
      Code(draw, secret, t, length)[k] in Digits[..9] && '0' <= Code(draw, secret, t, length)[k] <= '8'
  {
    var r := Code(draw, secret, t, length);
    forall k | 0 <= k < |r|
      ensures r[k] in Digits[..9] && '0' <= r[k] <= '8'
    {
      var d := DigitIndex(draw, secret, t, k);
      assert r[k] == Digits[d] == Digits[..9][d];
    }
  }

  /** A passcode is ASCII, so its `string.Length` is its character count: every passcode
      passes the length check of Verify when `Length` is not negative. */
  lemma CodeUtf16Length(draw: Generator, secret: seq<Byte>, t: int, length: int)
    ensures Utf8.Utf16Length(Code(draw, secret, t, length)) == (if length > 0 then length else 0)
  {
    var r := Code(draw, secret, t, length);
    CodeShape(draw, secret, t, length);
    assert Utf8.IsAscii(r);
    Utf8.Utf16LengthVersusUtf8(r);
    Utf8.EncodeAscii(r);
  }
}
