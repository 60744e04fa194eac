/**
 * The slice of `java.nio.ByteBuffer` the decoder uses: a buffer wrapping a
 * byte array, set to little-endian order, read with `getInt()`, which takes
 * four bytes at the cursor and advances it.
 */
module ByteBuffers {
  import opened JavaInt
  import opened Wrappers

  /**
   * The `int` whose little-endian encoding is the four bytes `b`: the
   * unsigned base-256 number they spell, wrapped into 32-bit two's complement.
   */
  function LittleEndianInt(b: seq<JByte>): (r: I32)
    requires |b| == 4
    ensures (r - (ToUnsigned(b[0]) + 0x100 * ToUnsigned(b[1]) + 0x1_0000 * ToUnsigned(b[2])
                  + 0x100_0000 * ToUnsigned(b[3]))) % 0x1_0000_0000 == 0
  {
    var u := ToUnsigned(b[0]) + 0x100 * ToUnsigned(b[1]) + 0x1_0000 * ToUnsigned(b[2])
             + 0x100_0000 * ToUnsigned(b[3]);
    if u < 0x8000_0000 then u else u - 0x1_0000_0000
  }

  /** The four bytes that `putInt(x)` writes in little-endian order. */
  function LittleEndianBytes(x: I32): seq<JByte>
  {
    [ToByte(x), ToByte(ShiftRight(x, 8)), ToByte(ShiftRight(x, 16)), ToByte(ShiftRight(x, 24))]
  }

  /** The last byte carries the sign: read as a signed byte it is the high-order digit. */
  lemma LittleEndianIntDigits(b: seq<JByte>)
    requires |b| == 4
    ensures LittleEndianInt(b)
         == ToUnsigned(b[0]) + 0x100 * ToUnsigned(b[1]) + 0x1_0000 * ToUnsigned(b[2]) + 0x100_0000 * (b[3] as int)
    ensures LittleEndianInt(b) < 0 <==> b[3] < 0
  {
  }

  /** Shifting the decoded int right and narrowing to a byte gives back the byte at that offset. */
  lemma LittleEndianIntBytes(b: seq<JByte>)
    requires |b| == 4
    ensures ShiftRight(LittleEndianInt(b), 24) == b[3]
    ensures ToByte(ShiftRight(LittleEndianInt(b), 16)) == b[2]
    ensures ToByte(ShiftRight(LittleEndianInt(b), 8)) == b[1]
    ensures ToByte(LittleEndianInt(b)) == b[0]
  {
    var x := LittleEndianInt(b);
    var u0: int, u1: int, u2: int, s3: int := ToUnsigned(b[0]), ToUnsigned(b[1]), ToUnsigned(b[2]), b[3] as int;
    LittleEndianIntDigits(b);
    Pow2Constants();
    DivModUnique(x, 0x100_0000, s3, u0 + 0x100 * u1 + 0x1_0000 * u2);
    DivModUnique(x, 0x1_0000, u2 + 0x100 * s3, u0 + 0x100 * u1);
    ToByteIgnoresHighBits(u2, s3);
    ToByteOfUnsigned(b[2]);
    DivModUnique(x, 0x100, u1 + 0x100 * u2 + 0x1_0000 * s3, u0);
    ToByteIgnoresHighBits(u1, u2 + 0x100 * s3);
    ToByteOfUnsigned(b[1]);
    ToByteIgnoresHighBits(u0, u1 + 0x100 * u2 + 0x1_0000 * s3);
    ToByteOfUnsigned(b[0]);
  }

  /** Reading back what was written in little-endian order gives the bytes unchanged. */
  lemma BytesRoundTrip(b: seq<JByte>)
    requires |b| == 4
    ensures LittleEndianBytes(LittleEndianInt(b)) == b
  {
    LittleEndianIntBytes(b);
    ToByteOfByte(b[3]);
  }

  /** Writing an int in little-endian order and reading it back gives the int unchanged. */
  lemma IntRoundTrip(x: I32)
    ensures LittleEndianInt(LittleEndianBytes(x)) == x
  {
    Pow2Constants();
    var y1: int, y2: int, y3: int := ShiftRight(x, 8), ShiftRight(x, 16), ShiftRight(x, 24);
    assert y1 == x / 0x100 && y2 == x / 0x1_0000 && y3 == x / 0x100_0000;
    assert -0x80 <= y3 < 0x80;
    var bytes := LittleEndianBytes(x);
    LittleEndianIntDigits(bytes);
    ToUnsignedOfToByte(x);
    ToUnsignedOfToByte(y1);
    ToUnsignedOfToByte(y2);
    ToByteOfByte(y3);
    DivModUnique(x, 0x1_0000, y1 / 0x100, x % 0x100 + 0x100 * (y1 % 0x100));
    DivModUnique(x, 0x100_0000, y2 / 0x100, x % 0x100 + 0x100 * (y1 % 0x100) + 0x1_0000 * (y2 % 0x100));
  }

  /**
   * `ByteBuffer.wrap(data).order(ByteOrder.LITTLE_ENDIAN)`: a read cursor over
   * the wrapped bytes. Nothing here writes to the bytes, so they are kept as a
   * sequence; the cursor is the one field that changes.
   */
  class ByteBuffer {
    const content: seq<JByte>
    var position: nat

    ghost predicate Valid()
      reads this
    {
      position <= |content|
    }

    constructor Wrap(data: seq<JByte>)
      ensures Valid()
      ensures content == data && position == 0
    {
      content := data;
      position := 0;
    }

    /**
     * `getInt()`: the little-endian int at the cursor, which then moves four
     * bytes on. With fewer than four bytes left it fails with a buffer
     * underflow (`None`) and the cursor stays put.
     */
    method GetInt() returns (r: Option<I32>)
      requires Valid()
      modifies this`position
      ensures Valid()
      ensures old(position) + 4 <= |content| ==>
                r == Some(LittleEndianInt(content[old(position)..old(position) + 4]))
                && position == old(position) + 4
      ensures |content| < old(position) + 4 ==> r == None && position == old(position)
    {
      if |content| - position < 4 {
        return None;
      }
      r := Some(LittleEndianInt(content[position..position + 4]));
      position := position + 4;
    }
  }
}
