/** The export format: the magic bytes "AUTH", then name, description and secret, each as a
    little-endian int32 length followed by that many bytes. `Encode`/`Decode` state the byte
    layout; `BinaryWriter`/`BinaryReader` are the stream cursors that Export and Import drive. */
module Codec {
  import opened Results
  import opened Binary
  import Utf8

  const Magic: seq<Byte> := [0x41, 0x55, 0x54, 0x48]

  /** The descriptive metadata exported beside the secret. */
  datatype Details = Details(name: string, description: string)

  /** A freshly constructed Details value: both fields empty. */
  const DefaultDetails := Details("", "")

  /** What a successful import recovers. */
  datatype Bundle = Bundle(details: Details, secret: seq<Byte>)

  /** Every length prefix must fit in an int32 (no .NET array is longer). */
  predicate Encodable(d: Details, secret: seq<Byte>)
  {
    |Utf8.Encode(d.name)| < 0x8000_0000 &&
    |Utf8.Encode(d.description)| < 0x8000_0000 &&
    |secret| < 0x8000_0000
  }

  function Min(a: int, b: int): int { if a < b then a else b }

  /** One length-prefixed field. */
  function Field(prefix: Int32, bytes: seq<Byte>): seq<Byte>
  {
    Int32ToLe(prefix) + bytes
  }

  /** Writing a prefix and then its bytes appends one field. */
  lemma AppendField(written: seq<Byte>, prefix: Int32, bytes: seq<Byte>)
    ensures written + Int32ToLe(prefix) + bytes == written + Field(prefix, bytes)
  {
  }

  /** The layout with each prefix equal to the byte count that follows it. */
  function Encode(d: Details, secret: seq<Byte>): (r: seq<Byte>)
    requires Encodable(d, secret)
    ensures |r| == 16 + |Utf8.Encode(d.name)| + |Utf8.Encode(d.description)| + |secret|
    ensures r[..4] == Magic
  {
    var name := Utf8.Encode(d.name);
    var description := Utf8.Encode(d.description);
    Magic + Field(|name|, name) + Field(|description|, description) + Field(|secret|, secret)
  }

  /** Where each part of the export sits. With n and m the byte counts of the name and the
      description: the name's prefix at 4, its bytes at 8, the description's prefix at 8 + n,
      its bytes at 12 + n, the secret's prefix at 12 + n + m, and the secret from 16 + n + m
      to the end. */
  lemma EncodeLayout(d: Details, secret: seq<Byte>)
    requires Encodable(d, secret)
    ensures var n := |Utf8.Encode(d.name)|; var m := |Utf8.Encode(d.description)|; var e := Encode(d, secret);
      && e[4..8] == Int32ToLe(n) && e[8..8 + n] == Utf8.Encode(d.name)
      && e[8 + n..12 + n] == Int32ToLe(m) && e[12 + n..12 + n + m] == Utf8.Encode(d.description)
      && e[12 + n + m..16 + n + m] == Int32ToLe(|secret|) && e[16 + n + m..] == secret
  {
    var name := Utf8.Encode(d.name);
    var description := Utf8.Encode(d.description);
    var f1, f2, f3 := Field(|name|, name), Field(|description|, description), Field(|secret|, secret);
    var e := Encode(d, secret);
    assert e == Magic + f1 + (f2 + f3);
    FieldAt(Magic, |name|, name, f2 + f3);
    FieldAt(Magic + f1, |description|, description, f3);
    assert e == Magic + f1 + f2 + f3 + [];
    FieldAt(Magic + f1 + f2, |secret|, secret, []);
  }

  /** In `a + Field(prefix, bytes) + c` the prefix sits at |a|, the bytes after it, and
      `c` after them. */
  lemma FieldAt(a: seq<Byte>, prefix: Int32, bytes: seq<Byte>, c: seq<Byte>)
    ensures var s := a + Field(prefix, bytes) + c;
      && s[|a|..|a| + 4] == Int32ToLe(prefix)
      && s[|a| + 4..|a| + 4 + |bytes|] == bytes
      && s[|a| + 4 + |bytes|..] == c
  {
  }

  /** The layout as Export writes it: each text prefix is `string.Length`, the UTF-16
      code-unit count, while the bytes after it are the UTF-8 form. */
  function EncodeAsWritten(d: Details, secret: seq<Byte>): (r: seq<Byte>)
    requires Encodable(d, secret)
    ensures |r| == 16 + |Utf8.Encode(d.name)| + |Utf8.Encode(d.description)| + |secret|
    ensures r[..4] == Magic
  {
    Utf8.Utf16LengthVersusUtf8(d.name);
    Utf8.Utf16LengthVersusUtf8(d.description);
    Magic + Field(Utf8.Utf16Length(d.name), Utf8.Encode(d.name))
          + Field(Utf8.Utf16Length(d.description), Utf8.Encode(d.description))
          + Field(|secret|, secret)
  }

  /** A value read from `data`, and the position just after it. */
  datatype Read<T> = Read(value: T, next: nat)

  /** BinaryReader.ReadBytes(count) at position `pos`: a negative count is an error, and
      near the end of the data it returns only the bytes that remain. */
  function ReadBytesAt(data: seq<Byte>, pos: nat, count: Int32): (r: Result<Read<seq<Byte>>>)
    requires pos <= |data|
    ensures r.Failure? <==> count < 0
    ensures r.Failure? ==> r.error == NegativeCount
    ensures r.Success? ==> pos <= r.value.next <= |data| && r.value.value == data[pos..r.value.next]
    ensures r.Success? ==> |r.value.value| == Min(count, |data| - pos)
  {
    if count < 0 then Failure(NegativeCount)
    else
      var n := Min(count, |data| - pos);
      Success(Read(data[pos..pos + n], pos + n))
  }

  /** BinaryReader.ReadInt32 at position `pos`: fails unless 4 bytes remain. */
  function ReadInt32At(data: seq<Byte>, pos: nat): (r: Result<Read<Int32>>)
    requires pos <= |data|
    ensures r.Failure? <==> |data| - pos < 4
    ensures r.Failure? ==> r.error == EndOfStream
    ensures r.Success? ==> r.value.next == pos + 4 && r.value.value == LeToInt32(data[pos..pos + 4])
  {
    if |data| - pos < 4 then Failure(EndOfStream)
    else Success(Read(LeToInt32(data[pos..pos + 4]), pos + 4))
  }

  /** The bytes ReadBytes(4) returns first: the whole input when it is shorter. */
  function Header(data: seq<Byte>): seq<Byte>
  {
    data[..Min(4, |data|)]
  }

  /** One length-prefixed field read at `pos`: ReadBytes(ReadInt32()). */
  function ReadFieldAt(data: seq<Byte>, pos: nat): (r: Result<Read<seq<Byte>>>)
    requires pos <= |data|
    ensures r.Success? ==> pos + 4 <= r.value.next <= |data|
  {
    var length :- ReadInt32At(data, pos);
    ReadBytesAt(data, length.next, length.value)
  }

  /** What Import reads: `None` when the header is not the magic, the exception when a
      read fails, the bundle otherwise. */
  function Decode(data: seq<Byte>): (r: Result<Option<Bundle>>)
    ensures (r == Success(None)) <==> Header(data) != Magic
  {
    if Header(data) != Magic then Success(None)
    else
      var name :- ReadFieldAt(data, 4);
      var description :- ReadFieldAt(data, name.next);
      var secret :- ReadFieldAt(data, description.next);
      Success(Some(Bundle(Details(Utf8.Decode(name.value), Utf8.Decode(description.value)), secret.value)))
  }

  /** Importing an export gives back the details and the secret, for all text. */
  lemma RoundTrip(d: Details, secret: seq<Byte>)
    requires Encodable(d, secret)
    ensures Decode(Encode(d, secret)) == Success(Some(Bundle(d, secret)))
  {
    StrictRoundTrip(d, secret);
  }

  /** A field written after `before` is read back whole from that position. */
  lemma ReadField(before: seq<Byte>, bytes: seq<Byte>, after: seq<Byte>)
    requires |bytes| < 0x8000_0000
    ensures ReadFieldAt(before + Field(|bytes|, bytes) + after, |before|)
         == Success(Read(bytes, |before| + 4 + |bytes|))
  {
    var field := Field(|bytes|, bytes);
    var data := before + field + after;
    assert data[|before|..|before| + |field|] == field;
    assert field[..4] == Int32ToLe(|bytes|) && field[4..] == bytes;
    assert data[|before|..|before| + 4] == Int32ToLe(|bytes|);
    assert data[|before| + 4..|before| + 4 + |bytes|] == bytes;
    LeToInt32OfInt32ToLe(|bytes|);
    assert ReadInt32At(data, |before|) == Success(Read(|bytes| as Int32, |before| + 4));
  }

  /** A read of exactly `count` bytes, failing when fewer remain. BinaryReader.ReadBytes
      returns the short remainder instead; this is the check the format asks for. */
  function ReadExactAt(data: seq<Byte>, pos: nat, count: Int32): (r: Result<Read<seq<Byte>>>)
    requires pos <= |data|
    ensures r.Failure? <==> count < 0 || |data| - pos < count
    ensures r.Failure? && count >= 0 ==> r.error == Truncated
    ensures r.Success? ==> |r.value.value| == count && r == ReadBytesAt(data, pos, count)
  {
    if 0 <= count && |data| - pos < count then Failure(Truncated)
    else ReadBytesAt(data, pos, count)
  }

  /** One length-prefixed field whose bytes must all be present. */
  function ReadFieldExactAt(data: seq<Byte>, pos: nat): (r: Result<Read<seq<Byte>>>)
    requires pos <= |data|
    ensures r.Success? ==> r == ReadFieldAt(data, pos)
    ensures ReadFieldAt(data, pos).Success? ==>
      (r.Success? <==> |ReadFieldAt(data, pos).value.value| == ReadInt32At(data, pos).value.value)
    ensures r.Failure? && ReadFieldAt(data, pos).Success? ==> r.error == Truncated
  {
    var length :- ReadInt32At(data, pos);
    ReadExactAt(data, length.next, length.value)
  }

  /** The import the format describes: like `Decode`, except that a field shorter than its
      prefix is an error. Whatever it accepts, `Decode` accepts with the same result. */
  function DecodeStrict(data: seq<Byte>): (r: Result<Option<Bundle>>)
    ensures (r == Success(None)) <==> Header(data) != Magic
    ensures r.Success? ==> r == Decode(data)
    ensures r.Failure? && Decode(data).Success? ==> r.error == Truncated
  {
    if Header(data) != Magic then Success(None)
    else
      var name :- ReadFieldExactAt(data, 4);
      var description :- ReadFieldExactAt(data, name.next);
      var secret :- ReadFieldExactAt(data, description.next);
      Success(Some(Bundle(Details(Utf8.Decode(name.value), Utf8.Decode(description.value)), secret.value)))
  }

  /** A field whose prefix promises more bytes than remain: the lenient read returns what
      is left, the strict read refuses it. */
  lemma ShortField(data: seq<Byte>, before: seq<Byte>, count: Int32, tail: seq<Byte>)
    requires data == before + Int32ToLe(count) + tail && |tail| < count
    ensures ReadFieldAt(data, |before|) == Success(Read(tail, |before| + 4 + |tail|))
    ensures ReadFieldExactAt(data, |before|) == Failure(Truncated)
  {
    var p := |before|;
    assert |data| == p + 4 + |tail|;
    assert data[p..p + 4] == Int32ToLe(count);
    assert data[p + 4..p + 4 + |tail|] == tail;
    LeToInt32OfInt32ToLe(count);
    assert ReadInt32At(data, p) == Success(Read(count, p + 4));
    assert ReadBytesAt(data, p + 4, count) == Success(Read(tail, p + 4 + |tail|));
  }

  /** An export whose secret prefix promises more bytes than follow: the lenient import
      takes the bytes that are there as the secret. */
  lemma TruncatedSecretAccepted(name: seq<Byte>, description: seq<Byte>, count: Int32, tail: seq<Byte>)
    requires |name| < 0x8000_0000 && |description| < 0x8000_0000 && |tail| < count
    ensures Decode(Magic + Field(|name|, name) + Field(|description|, description) + Int32ToLe(count) + tail)
         == Success(Some(Bundle(Details(Utf8.Decode(name), Utf8.Decode(description)), tail)))
  {
    var head := Magic + Field(|name|, name) + Field(|description|, description);
    var e := head + Int32ToLe(count) + tail;
    var p1, p2 := 8 + |name|, 12 + |name| + |description|;
    assert |head| == p2;
    assert ReadFieldAt(e, 4) == Success(Read(name, p1)) && ReadFieldAt(e, p1) == Success(Read(description, p2)) && Header(e) == Magic by {
      LeadingFields(name, description, Int32ToLe(count) + tail);
      assert e == head + (Int32ToLe(count) + tail);
    }
    assert ReadFieldAt(e, p2) == Success(Read(tail, p2 + 4 + |tail|)) by {
      ShortField(e, head, count, tail);
    }
    DecodeOfFields(e, name, description, tail, p1, p2);
  }

  /** The name and the description fields of an export are read back whole, whatever
      follows them. */
  lemma LeadingFields(name: seq<Byte>, description: seq<Byte>, rest: seq<Byte>)
    requires |name| < 0x8000_0000 && |description| < 0x8000_0000
    ensures var e := Magic + Field(|name|, name) + Field(|description|, description) + rest;
      && Header(e) == Magic
      && ReadFieldAt(e, 4) == Success(Read(name, 8 + |name|))
      && ReadFieldAt(e, 8 + |name|) == Success(Read(description, 12 + |name| + |description|))
  {
    var f1, f2 := Field(|name|, name), Field(|description|, description);
    var e := Magic + f1 + f2 + rest;
    assert Header(e) == Magic && ReadFieldAt(e, 4) == Success(Read(name, 8 + |name|)) by {
      assert e == Magic + f1 + (f2 + rest);
      ReadField(Magic, name, f2 + rest);
    }
    ReadField(Magic + f1, description, rest);
  }

  /** `Decode` once its three field reads are known. */
  lemma DecodeOfFields(data: seq<Byte>, name: seq<Byte>, description: seq<Byte>, secret: seq<Byte>, p1: nat, p2: nat)
    requires Header(data) == Magic && p1 <= |data| && p2 <= |data|
    requires ReadFieldAt(data, 4) == Success(Read(name, p1))
    requires ReadFieldAt(data, p1) == Success(Read(description, p2))
    requires ReadFieldAt(data, p2).Success? && ReadFieldAt(data, p2).value.value == secret
    ensures Decode(data) == Success(Some(Bundle(Details(Utf8.Decode(name), Utf8.Decode(description)), secret)))
  {
  }

  /** The strict import refuses every such export. */
  lemma StrictRejectsTruncatedSecret(name: seq<Byte>, description: seq<Byte>, count: Int32, tail: seq<Byte>)
    requires |name| < 0x8000_0000 && |description| < 0x8000_0000 && |tail| < count
    ensures DecodeStrict(Magic + Field(|name|, name) + Field(|description|, description) + Int32ToLe(count) + tail)
         == Failure(Truncated)
  {
    var f1, f2 := Field(|name|, name), Field(|description|, description);
    var rest := Int32ToLe(count) + tail;
    var e := Magic + f1 + f2 + Int32ToLe(count) + tail;
    assert e == Magic + f1 + (f2 + rest);
    assert Header(e) == Magic;
    ReadFieldExact(Magic, name, f2 + rest);
    assert e == Magic + f1 + f2 + rest;
    ReadFieldExact(Magic + f1, description, rest);
    ShortField(e, Magic + f1 + f2, count, tail);
  }

  /** A field written after `before` is read back whole by the strict read as well. */
  lemma ReadFieldExact(before: seq<Byte>, bytes: seq<Byte>, after: seq<Byte>)
    requires |bytes| < 0x8000_0000
    ensures ReadFieldExactAt(before + Field(|bytes|, bytes) + after, |before|)
         == Success(Read(bytes, |before| + 4 + |bytes|))
  {
    ReadField(before, bytes, after);
    var data := before + Field(|bytes|, bytes) + after;
    LeToInt32OfInt32ToLe(|bytes|);
    assert data[|before|..|before| + 4] == Int32ToLe(|bytes|);
  }

  /** The strict import reads back every export, so it loses nothing over `Decode`. */
  lemma StrictRoundTrip(d: Details, secret: seq<Byte>)
    requires Encodable(d, secret)
    ensures DecodeStrict(Encode(d, secret)) == Success(Some(Bundle(d, secret)))
  {
    var name := Utf8.Encode(d.name);
    var description := Utf8.Encode(d.description);
    var f1 := Field(|name|, name);
    var f2 := Field(|description|, description);
    var f3 := Field(|secret|, secret);
    var e := Encode(d, secret);
    assert e == Magic + f1 + f2 + f3;
    assert Header(e) == Magic;
    assert e == Magic + f1 + (f2 + f3);
    ReadFieldExact(Magic, name, f2 + f3);
    ReadFieldExact(Magic + f1, description, f3);
    assert e == Magic + f1 + f2 + f3 + [];
    ReadFieldExact(Magic + f1 + f2, secret, []);
    Utf8.DecodeEncode(d.name);
    Utf8.DecodeEncode(d.description);
  }

  /** The layout as written agrees with the byte-count layout on ASCII text. */
  lemma AsWrittenAgreesOnAscii(d: Details, secret: seq<Byte>)
    requires Encodable(d, secret)
    requires Utf8.IsAscii(d.name) && Utf8.IsAscii(d.description)
    ensures EncodeAsWritten(d, secret) == Encode(d, secret)
  {
    Utf8.Utf16LengthVersusUtf8(d.name);
    Utf8.Utf16LengthVersusUtf8(d.description);
  }

  /** ...and only there: a name such as "é" gets the prefix 1 in front of its two UTF-8
      bytes, and importing the export fails at the end of the stream. */
  lemma AsWrittenBreaksNonAsciiImport()
    ensures Decode(EncodeAsWritten(Details("\U{E9}", ""), [])) == Failure(EndOfStream)
  {
    var e := EncodeAsWritten(Details("\U{E9}", ""), []);
    assert Utf8.Encode("\U{E9}") == [0xC3, 0xA9];
    assert Utf8.Utf16Length("\U{E9}") == 1;
    assert e == [0x41, 0x55, 0x54, 0x48, 1, 0, 0, 0, 0xC3, 0xA9, 0, 0, 0, 0, 0, 0, 0, 0];
    assert Header(e) == Magic;
    assert ReadInt32At(e, 4) == Success(Read(1 as Int32, 8));
    assert ReadBytesAt(e, 8, 1) == Success(Read(e[8..9], 9));
    assert ReadFieldAt(e, 4) == Success(Read(e[8..9], 9));
    assert ReadInt32At(e, 9) == Success(Read(0xA9 as Int32, 13));
    assert ReadBytesAt(e, 13, 0xA9) == Success(Read(e[13..18], 18));
    assert ReadFieldAt(e, 9) == Success(Read(e[13..18], 18));
  }

  /** The stream under a BinaryWriter: every write appends to what was written. */
  class BinaryWriter {
    var written: seq<Byte>

    constructor ()
      ensures written == []
    {
      written := [];
    }

    method Write(bytes: seq<Byte>)
      modifies this
      ensures written == old(written) + bytes
    {
      written := written + bytes;
    }

    method WriteInt32(x: Int32)
      modifies this
      ensures written == old(written) + Int32ToLe(x)
    {
      written := written + Int32ToLe(x);
    }
  }

  /** A BinaryReader over an in-memory array: a cursor that the reads advance. */
  class BinaryReader {
    const data: seq<Byte>
    var position: nat

    ghost predicate Valid()
      reads this
    {
      position <= |data|
    }

    constructor (data: seq<Byte>)
      ensures Valid() && this.data == data && position == 0
    {
      this.data := data;
      position := 0;
    }

    method ReadBytes(count: Int32) returns (r: Result<seq<Byte>>)
      requires Valid()
      modifies this
      ensures Valid()
      ensures match ReadBytesAt(data, old(position), count)
        case Success(read) => r == Success(read.value) && position == read.next
        case Failure(e) => r == Failure(e) && position == old(position)
    {
      if count < 0 {
        return Failure(NegativeCount);
      }
      var n := Min(count, |data| - position);
      r := Success(data[position..position + n]);
      position := position + n;
    }

    method ReadInt32() returns (r: Result<Int32>)
      requires Valid()
      modifies this
      ensures Valid()
      ensures match ReadInt32At(data, old(position))
        case Success(read) => r == Success(read.value) && position == read.next
        case Failure(e) => r == Failure(e) && position == old(position)
    {
      if |data| - position < 4 {
        return Failure(EndOfStream);
      }
      r := Success(LeToInt32(data[position..position + 4]));
      position := position + 4;
    }
  }
}
