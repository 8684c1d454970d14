/** Java's fixed-width integers and the big-endian 32-bit conversions that the
    chunk codec uses for its length, type-code and CRC fields.

    A Java `byte` and a Java `int` are signed two's-complement values; both are
    modelled as bounded subsets of `int`, and every place where the Java code
    reinterprets a bit pattern (`& 0xFF`, a `(byte)` cast, an `int` sum that
    wraps) is written out explicitly. */
module ByteCodec {

  /** A Java `byte`. */
  type Int8 = x: int | -0x80 <= x < 0x80

  /** A Java `int`. */
  type Int32 = x: int | -0x8000_0000 <= x < 0x8000_0000

  const MAX_INT32: Int32 := 0x7FFF_FFFF
  const TWO_32: int := 0x1_0000_0000

  /** `b & 0xFF`: the byte's bit pattern read as an unsigned number. */
  function Unsigned8(b: Int8): (u: nat)
    ensures u < 0x100
    ensures u % 0x100 == b % 0x100
  {
    if b < 0 then b + 0x100 else b
  }

  /** The `(byte)` cast of a value in 0..255: the same 8 bits, read as signed. */
  function Signed8(u: nat): (b: Int8)
    requires u < 0x100
    ensures Unsigned8(b) == u
  {
    if u < 0x80 then u else u - 0x100
  }

  /** The bit pattern of an `int`, read as an unsigned 32-bit number. */
  function Unsigned32(v: Int32): (u: nat)
    ensures u < TWO_32
    ensures u % TWO_32 == v % TWO_32
  {
    if v < 0 then v + TWO_32 else v
  }

  /** A 32-bit pattern read as a signed `int`. */
  function Signed32(u: nat): (v: Int32)
    requires u < TWO_32
    ensures Unsigned32(v) == u
  {
    if u < 0x8000_0000 then u else u - TWO_32
  }

  /** Java `int` arithmetic: the exact value, wrapped to 32 bits. */
  function Wrap32(x: int): (v: Int32)
    ensures (v - x) % TWO_32 == 0
    ensures -0x8000_0000 <= x <= MAX_INT32 ==> v == x
  {
    Signed32(x % TWO_32)
  }

  /** `byteArrayToInt`: four bytes, most significant first, composed into an
      `int`. The three ORs combine disjoint 8-bit fields, so each is a sum;
      the shift by 24 may set the sign bit, which `Signed32` accounts for. */
  function ByteArrayToInt(b: seq<Int8>): (v: Int32)
    requires |b| == 4
    ensures v < 0 <==> b[0] < 0
    ensures Unsigned32(v) % 0x100 == Unsigned8(b[3])
  {
    Signed32(Unsigned8(b[0]) * 0x100_0000 + Unsigned8(b[1]) * 0x1_0000
             + Unsigned8(b[2]) * 0x100 + Unsigned8(b[3]))
  }

  /** `readIntByByte`: byte `index` of `val`, counting from the most
      significant; every index other than 0, 1 and 2 selects the least
      significant byte. The arithmetic shift `>>` followed by `& 0xff` keeps
      bits that lie inside the 32-bit pattern, so it is a division of the
      unsigned pattern. */
  function ReadIntByByte(val: Int32, index: int): (b: Int8)
    ensures index != 0 && index != 1 && index != 2 ==> Unsigned8(b) == Unsigned32(val) % 0x100
    ensures index == 0 ==> (b < 0 <==> val < 0)
  {
    var u := Unsigned32(val);
    if index == 0 then Signed8(u / 0x100_0000)
    else if index == 1 then Signed8((u / 0x1_0000) % 0x100)
    else if index == 2 then Signed8((u / 0x100) % 0x100)
    else Signed8(u % 0x100)
  }

  /** The four bytes that `copyLength`, `copyTypeCode` and `copyCrc` write. */
  function IntToBytes(v: Int32): (b: seq<Int8>)
    ensures |b| == 4
  {
    [ReadIntByByte(v, 0), ReadIntByByte(v, 1), ReadIntByByte(v, 2), ReadIntByByte(v, 3)]
  }

  /** The unsigned number whose base-256 digits, most significant first, are
      the bytes of `b`: big-endian order as the PNG specification defines it
      (section 7.1, "Integers and byte order"). */
  function BigEndian(b: seq<Int8>): nat
  {
    if b == [] then 0 else BigEndian(b[..|b| - 1]) * 0x100 + Unsigned8(b[|b| - 1])
  }

  /** `byteArrayToInt` is big-endian: the `int` it builds has as its bit
      pattern the big-endian value of the four bytes. */
  lemma {:induction false} ByteArrayToIntIsBigEndian(b: seq<Int8>)
    requires |b| == 4
    ensures Unsigned32(ByteArrayToInt(b)) == BigEndian(b)
  {
    assert b[..3][..2] == b[..2] && b[..2][..1] == b[..1] && b[..1][..0] == [];
    assert BigEndian(b[..1]) == Unsigned8(b[0]);
    assert BigEndian(b[..2]) == Unsigned8(b[0]) * 0x100 + Unsigned8(b[1]);
    assert BigEndian(b[..3]) == (Unsigned8(b[0]) * 0x100 + Unsigned8(b[1])) * 0x100 + Unsigned8(b[2]);
  }

  /** `readIntByByte` is big-endian: the four bytes it yields for indices
      0..3 have the `int`'s bit pattern as their big-endian value. */
  lemma {:induction false} IntToBytesIsBigEndian(v: Int32)
    ensures BigEndian(IntToBytes(v)) == Unsigned32(v)
  {
    ByteArrayToIntIsBigEndian(IntToBytes(v));
    IntToBytesRoundTrip(v);
  }

  /** The four bytes of an `int` are its base-256 digits, most significant
      first. */
  lemma ReadIntByByteDigits(v: Int32)
    ensures Unsigned32(v) == Unsigned8(ReadIntByByte(v, 0)) * 0x100_0000
                             + Unsigned8(ReadIntByByte(v, 1)) * 0x1_0000
                             + Unsigned8(ReadIntByByte(v, 2)) * 0x100
                             + Unsigned8(ReadIntByByte(v, 3))
  {
    var u := Unsigned32(v);
    var q3 := u / 0x100;
    var q2 := q3 / 0x100;
    var q1 := q2 / 0x100;
    assert u == q3 * 0x100 + u % 0x100;
    assert q3 == q2 * 0x100 + q3 % 0x100;
    assert q2 == q1 * 0x100 + q2 % 0x100;
    assert q2 == u / 0x1_0000;
    assert q1 == u / 0x100_0000;
  }

  /** Writing an `int` as bytes and reading it back gives the same `int`. */
  lemma IntToBytesRoundTrip(v: Int32)
    ensures ByteArrayToInt(IntToBytes(v)) == v
  {
    ReadIntByByteDigits(v);
  }

  /** Reading any four bytes as an `int` and writing it back gives the same
      four bytes. */
  lemma BytesToIntRoundTrip(b: seq<Int8>)
    requires |b| == 4
    ensures IntToBytes(ByteArrayToInt(b)) == b
  {
    var b0, b1, b2, b3 := Unsigned8(b[0]), Unsigned8(b[1]), Unsigned8(b[2]), Unsigned8(b[3]);
    Digits(b0, b1, b2, b3);
    var r := IntToBytes(ByteArrayToInt(b));
    UnsignedInjective(r[0], b[0]);
    UnsignedInjective(r[1], b[1]);
    UnsignedInjective(r[2], b[2]);
    UnsignedInjective(r[3], b[3]);
  }

  /** The base-256 digits of a four-digit number are recovered by the
      divisions `readIntByByte` performs. */
  lemma Digits(b0: nat, b1: nat, b2: nat, b3: nat)
    requires b0 < 0x100 && b1 < 0x100 && b2 < 0x100 && b3 < 0x100
    ensures var u := b0 * 0x100_0000 + b1 * 0x1_0000 + b2 * 0x100 + b3;
            && u / 0x100_0000 == b0
            && (u / 0x1_0000) % 0x100 == b1
            && (u / 0x100) % 0x100 == b2
            && u % 0x100 == b3
  {
    var u := b0 * 0x100_0000 + b1 * 0x1_0000 + b2 * 0x100 + b3;
    assert u == b0 * 0x100_0000 + (b1 * 0x1_0000 + b2 * 0x100 + b3);
    assert u == (b0 * 0x100 + b1) * 0x1_0000 + (b2 * 0x100 + b3);
    assert u == (b0 * 0x1_0000 + b1 * 0x100 + b2) * 0x100 + b3;
  }

  lemma UnsignedInjective(x: Int8, y: Int8)
    requires Unsigned8(x) == Unsigned8(y)
    ensures x == y
  {
  }
}
