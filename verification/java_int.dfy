/**
 * Java's fixed-width integer types and the operators the save-file decoder
 * applies to them: the narrowing cast `(byte)` and the arithmetic shift `>>`.
 * Beside them, the unsigned view of a byte that `ByteBuffer.getInt` takes
 * when it assembles an int from four bytes.
 */
module JavaInt {

  /** A Java `byte`: two's complement, 8 bits. */
  type JByte = x: int | -0x80 <= x < 0x80

  /** A Java `int`: two's complement, 32 bits. */
  type I32 = x: int | -0x8000_0000 <= x < 0x8000_0000

  /** The bit pattern of a byte read as an unsigned number. */
  type Octet = x: int | 0 <= x < 0x100

  function Pow2(n: nat): (r: nat)
    ensures r >= 1
  {
    if n == 0 then 1 else 2 * Pow2(n - 1)
  }

  /** `b & 0xff`: the masking `ByteBuffer.getInt` applies to each byte before shifting it into place. */
  function ToUnsigned(b: JByte): (u: Octet)
    ensures u % 0x100 == b % 0x100
  {
    if b < 0 then b + 0x100 else b
  }

  /** The narrowing conversion `(byte) x`: keep the low 8 bits, read them as two's complement. */
  function ToByte(x: int): (b: JByte)
    ensures (b - x) % 0x100 == 0
  {
    (x + 0x80) % 0x100 - 0x80
  }

  /** `x >> n` on a Java `int`: the arithmetic (sign-propagating) right shift, i.e. division rounded down. */
  function ShiftRight(x: I32, n: nat): (r: I32)
    requires n < 32
    ensures r * Pow2(n) <= x < (r + 1) * Pow2(n)
  {
    x / Pow2(n)
  }

  lemma Pow2Constants()
    ensures Pow2(8) == 0x100 && Pow2(16) == 0x1_0000 && Pow2(24) == 0x100_0000
  {
  }

  /** Quotient and remainder are the only pair with the remainder in range. */
  lemma DivModUnique(x: int, d: int, q: int, r: int)
    requires 0 < d && 0 <= r < d && x == q * d + r
    ensures x / d == q && x % d == r
  {
    var q', r' := x / d, x % d;
    assert (q - q') * d == r' - r;
    MulMonotonic(q - q', d);
    MulMonotonic(q' - q, d);
  }

  /** A positive multiple of `d` is at least `d`. */
  lemma {:induction false} MulMonotonic(a: int, d: int)
    requires 0 < d
    ensures 1 <= a ==> d <= a * d
  {
    if a > 1 {
      MulMonotonic(a - 1, d);
      assert a * d == (a - 1) * d + d;
    }
  }

  /** Adding a multiple of 256 does not change the low byte. */
  lemma ToByteIgnoresHighBits(lo: int, k: int)
    ensures ToByte(lo + 0x100 * k) == ToByte(lo)
  {
    var m := (lo + 0x80) % 0x100;
    DivModUnique(lo + 0x80 + 0x100 * k, 0x100, (lo + 0x80) / 0x100 + k, m);
  }

  /** Narrowing a value that already fits in a byte leaves it unchanged. */
  lemma ToByteOfByte(b: JByte)
    ensures ToByte(b) == b
  {
    DivModUnique(b + 0x80, 0x100, 0, b + 0x80);
  }

  /** Narrowing the unsigned view of a byte gives the byte back. */
  lemma ToByteOfUnsigned(b: JByte)
    ensures ToByte(ToUnsigned(b)) == b
  {
    ToByteOfByte(b);
    if b < 0 {
      ToByteIgnoresHighBits(b, 1);
    }
  }

  /** The unsigned view of `(byte) y` is `y` modulo 256. */
  lemma ToUnsignedOfToByte(y: int)
    ensures ToUnsigned(ToByte(y)) == y % 0x100
  {
    var k, m := (y + 0x80) / 0x100, (y + 0x80) % 0x100;
    if m >= 0x80 {
      DivModUnique(y, 0x100, k, m - 0x80);
    } else {
      DivModUnique(y, 0x100, k - 1, m + 0x80);
    }
  }
}
