/**
 * The 4-byte length field at the head of every WGSocketManager frame:
 * `convertToByteFrom` writes it and `convertToIntFromByteArr` reads it.
 *
 * The reader of the source does not invert the writer: it ORs the three
 * upper bytes together and shifts them by 8. It agrees with big-endian
 * decoding exactly when the two upper bytes are zero, so the round trip
 * holds for lengths below 2^16 and fails for every longer one. The model
 * keeps the reader as written.
 */
module LengthField {
  import opened Bytes

  /** Size of the length field at the start of the header. */
  const LengthFieldSize: nat := 4

  /** Lengths below this bound survive the source's length decoder. */
  const DecodableBound: nat := 0x1_0000


  /** The exact big-endian reading of a 4-byte length field. */
  function BigEndian(b: seq<bv8>): nat
    requires |b| == LengthFieldSize
  {
    b[0] as nat * 0x100_0000 + b[1] as nat * 0x1_0000 + b[2] as nat * 0x100 + b[3] as nat
  }

  /** `UInt8(x & 255)` for a non-negative x. */
  function LowByte(x: nat): (r: bv8)
    ensures r as nat == x % 0x100
  {
    ByteRoundTrip(x % 0x100);
    (x % 0x100) as bv8
  }

  lemma DigitSplit(n: nat)
    ensures n % 0x1_0000_0000 ==
      ((n / 0x100_0000) % 0x100) * 0x100_0000 + ((n / 0x1_0000) % 0x100) * 0x1_0000
      + ((n / 0x100) % 0x100) * 0x100 + n % 0x100
  {
    var n1 := n / 0x100;
    var n2 := n1 / 0x100;
    var n3 := n2 / 0x100;
    assert n == n1 * 0x100 + n % 0x100;
    assert n1 == n2 * 0x100 + n1 % 0x100;
    assert n2 == n3 * 0x100 + n2 % 0x100;
    assert n2 == n / 0x1_0000;
    assert n3 == n / 0x100_0000;
    assert n == (n / 0x1_0000_0000) * 0x1_0000_0000 + n % 0x1_0000_0000;
    assert n3 == (n / 0x1_0000_0000) * 0x100 + n3 % 0x100;
  }

  /**
   * `convertToByteFrom(intValue:)`: the four bytes
   * `(n >> 24) & 255, (n >> 16) & 255, (n >> 8) & 255, n & 255`.
   * Read big-endian they give n back, modulo 2^32.
   */
  function ConvertToByteFrom(intValue: nat): (r: seq<bv8>)
    ensures |r| == LengthFieldSize
    ensures BigEndian(r) == intValue % 0x1_0000_0000
  {
    DigitSplit(intValue);
    [ LowByte(intValue / 0x100_0000), LowByte(intValue / 0x1_0000),
      LowByte(intValue / 0x100), LowByte(intValue) ]
  }

  lemma ShiftOrValue(v: bv8, w: bv8)
    ensures (((v as bv16) << 8) | (w as bv16)) as nat == v as nat * 0x100 + w as nat
  {
  }

  lemma ShiftsDistribute(x: bv8, y: bv8, z: bv8, w: bv8)
    ensures ((x as bv16) << 8) | ((y as bv16) << 8) | ((z as bv16) << 8) | (w as bv16)
         == (((x | y | z) as bv16) << 8) | (w as bv16)
  {
  }

  /** `byte1 << 8 | byte2 << 8 | byte3 << 8 | byte4`, with Swift's precedence (shift before or). */
  function ShiftedOr(byte1: bv16, byte2: bv16, byte3: bv16, byte4: bv16): bv16 {
    (byte1 << 8) | (byte2 << 8) | (byte3 << 8) | byte4
  }

  /**
   * `convertToIntFromByteArr(byteArr:)` as written. Every operand fits in
   * 16 bits, so a 16-bit vector computes the same value as Swift's Int.
   * The three upper bytes are ORed into one byte and weighted 256.
   */
  function ConvertToIntFromByteArr(byteArr: seq<bv8>): (r: nat)
    requires |byteArr| == LengthFieldSize
    ensures r == (byteArr[0] | byteArr[1] | byteArr[2]) as nat * 0x100 + byteArr[3] as nat
  {
    ShiftsDistribute(byteArr[0], byteArr[1], byteArr[2], byteArr[3]);
    ShiftOrValue(byteArr[0] | byteArr[1] | byteArr[2], byteArr[3]);
    ShiftedOr(byteArr[0] as bv16, byteArr[1] as bv16, byteArr[2] as bv16, byteArr[3] as bv16) as nat
  }

  /** The decoder never yields 2^16 or more, and it is big-endian decoding exactly when the upper two bytes are zero. */
  lemma DecoderAgreesWithBigEndianIff(b: seq<bv8>)
    requires |b| == LengthFieldSize
    ensures ConvertToIntFromByteArr(b) < DecodableBound
    ensures ConvertToIntFromByteArr(b) == BigEndian(b) <==> b[0] == 0 && b[1] == 0
  {
    if b[0] == 0 && b[1] == 0 {
      assert b[0] | b[1] | b[2] == b[2];
    }
  }

  /** Encoding a length and decoding it with the source's decoder gives it back exactly when it is below 2^16. */
  lemma DecodeEncodeIff(n: nat)
    ensures ConvertToIntFromByteArr(ConvertToByteFrom(n)) == n <==> n < DecodableBound
  {
    DecoderAgreesWithBigEndianIff(ConvertToByteFrom(n));
    if n < DecodableBound {
      SmallLengthHasZeroUpperBytes(n);
    }
  }

  lemma SmallLengthHasZeroUpperBytes(n: nat)
    requires n < DecodableBound
    ensures ConvertToByteFrom(n)[0] == 0 && ConvertToByteFrom(n)[1] == 0
  {
    assert n / 0x100_0000 == 0 && n / 0x1_0000 == 0;
    ZeroByte(LowByte(0));
  }

  lemma ZeroByte(b: bv8)
    requires b as nat == 0
    ensures b == 0
  {
  }

  /** An exact big-endian decoder inverts the encoder on every length below 2^32. */
  lemma BigEndianDecodeEncode(n: nat)
    requires n < 0x1_0000_0000
    ensures BigEndian(ConvertToByteFrom(n)) == n
  {
  }

  /** The smallest body that breaks the decoder: a 65543-byte frame is announced as 263 bytes. */
  lemma DecoderMisreadsLongFrame()
    ensures ConvertToByteFrom(0x1_0007) == [0, 1, 0, 7]
    ensures ConvertToIntFromByteArr(ConvertToByteFrom(0x1_0007)) == 263
  {
    assert 0x1_0007 / 0x100_0000 == 0 && 0x1_0007 / 0x1_0000 == 1 && 0x1_0007 / 0x100 == 0x100;
    assert LowByte(0) == 0 && LowByte(1) == 1 && LowByte(0x100) == 0 && LowByte(0x1_0007) == 7;
    var b: seq<bv8> := [0, 1, 0, 7];
    assert b[0] | b[1] | b[2] == 1;
  }
}
