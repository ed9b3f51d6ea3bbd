/** Bytes, 32-bit integers and the little-endian form that BinaryWriter.Write(int)
    produces and BinaryReader.ReadInt32 consumes. */
module Binary {

  type Byte = b: int | 0 <= b < 0x100

  /** The range of a .NET `int`. */
  type Int32 = x: int | -0x8000_0000 <= x < 0x8000_0000

  /** Two's-complement little-endian encoding of a 32-bit integer. */
  function Int32ToLe(x: Int32): (r: seq<Byte>)
    ensures |r| == 4
    ensures (x < 0) <==> (r[3] >= 0x80)
  {
    var u0 := if x < 0 then x + 0x1_0000_0000 else x;
    var u1 := u0 / 0x100;
    var u2 := u1 / 0x100;
    [u0 % 0x100, u1 % 0x100, u2 % 0x100, u2 / 0x100]
  }

  /** The 32-bit integer whose little-endian two's-complement form is `b`. */
  function LeToInt32(b: seq<Byte>): (r: Int32)
    requires |b| == 4
    ensures (r < 0) <==> (b[3] >= 0x80)
  {
    var u: int := b[0] as int + 0x100 * (b[1] as int + 0x100 * (b[2] as int + 0x100 * b[3] as int));
    if u < 0x8000_0000 then u else u - 0x1_0000_0000
  }

  /** Reading back what was written gives the original integer. */
  lemma LeToInt32OfInt32ToLe(x: Int32)
    ensures LeToInt32(Int32ToLe(x)) == x
  {
    var u0 := if x < 0 then x + 0x1_0000_0000 else x;
    var u1 := u0 / 0x100;
    var u2 := u1 / 0x100;
    assert u0 == u0 % 0x100 + 0x100 * u1;
    assert u1 == u1 % 0x100 + 0x100 * u2;
    assert u2 == u2 % 0x100 + 0x100 * (u2 / 0x100);
  }

  /** Every 4-byte sequence is the encoding of exactly one integer. */
  lemma Int32ToLeOfLeToInt32(b: seq<Byte>)
    requires |b| == 4
    ensures Int32ToLe(LeToInt32(b)) == b
  {
    var u2: int := b[2] as int + 0x100 * b[3] as int;
    var u1: int := b[1] as int + 0x100 * u2;
    var u0: int := b[0] as int + 0x100 * u1;
    assert u0 / 0x100 == u1 && u0 % 0x100 == b[0];
    assert u1 / 0x100 == u2 && u1 % 0x100 == b[1];
    assert u2 / 0x100 == b[3] && u2 % 0x100 == b[2];
  }
}
