/** Unsigned 32-bit integers as the sendump container stores them. */
module Bytes {

  /** An unsigned 8-bit value, as numpy's uint8 and Python's bytes hold it. */
  newtype byte = x: int | 0 <= x < 0x100

  const U32_LIMIT: int := 0x1_0000_0000

  /** The writer always uses big-endian order ('>I'); the reader uses the host's native order ('I'). */
  datatype ByteOrder = BigEndian | LittleEndian

  /** struct.pack('>I', n): four bytes, most significant first. */
  function BE32(n: nat): (b: seq<byte>)
    requires n < U32_LIMIT
    ensures |b| == 4
  {
    [(n / 0x100_0000) as byte, ((n / 0x1_0000) % 0x100) as byte, ((n / 0x100) % 0x100) as byte, (n % 0x100) as byte]
  }

  /** struct.unpack('I', b)[0] when the host has the given byte order. */
  function U32(order: ByteOrder, b: seq<byte>): (n: nat)
    requires |b| == 4
    ensures n < U32_LIMIT
  {
    var w := if order == BigEndian then b else [b[3], b[2], b[1], b[0]];
    (w[0] as int) * 0x100_0000 + (w[1] as int) * 0x1_0000 + (w[2] as int) * 0x100 + (w[3] as int)
  }

  /** The four base-256 digits of a 32-bit number recombine to it. */
  lemma Digits(n: nat)
    requires n < U32_LIMIT
    ensures n == (n / 0x100_0000) * 0x100_0000 + ((n / 0x1_0000) % 0x100) * 0x1_0000
                 + ((n / 0x100) % 0x100) * 0x100 + n % 0x100
  {
    var q0, r0 := n / 0x100, n % 0x100;
    var q1, r1 := q0 / 0x100, q0 % 0x100;
    var q2 := q1 / 0x100;
    assert n == q0 * 0x100 + r0;
    assert q0 == q1 * 0x100 + r1;
    assert q1 == q2 * 0x100 + q1 % 0x100;
    assert n / 0x1_0000 == q1;
    assert n / 0x100_0000 == q2;
  }

  /** Reading back what the writer packed gives the same number, when the reader is big-endian. */
  lemma U32OfBE32(n: nat)
    requires n < U32_LIMIT
    ensures U32(BigEndian, BE32(n)) == n
  {
    Digits(n);
  }

  /** A number built from four base-256 digits has those digits. */
  lemma DigitsOf(b0: int, b1: int, b2: int, b3: int)
    requires 0 <= b0 < 0x100 && 0 <= b1 < 0x100 && 0 <= b2 < 0x100 && 0 <= b3 < 0x100
    ensures var n := b0 * 0x100_0000 + b1 * 0x1_0000 + b2 * 0x100 + b3;
      n / 0x100_0000 == b0 && (n / 0x1_0000) % 0x100 == b1 && (n / 0x100) % 0x100 == b2 && n % 0x100 == b3
  {
    var n := b0 * 0x100_0000 + b1 * 0x1_0000 + b2 * 0x100 + b3;
    assert n == ((b0 * 0x100 + b1) * 0x100 + b2) * 0x100 + b3;
    assert n / 0x100 == (b0 * 0x100 + b1) * 0x100 + b2;
    assert n / 0x1_0000 == b0 * 0x100 + b1;
  }

  /** Every four bytes are the big-endian packing of what a big-endian reader decodes from them. */
  lemma BE32OfU32(b: seq<byte>)
    requires |b| == 4
    ensures BE32(U32(BigEndian, b)) == b
  {
    var n := U32(BigEndian, b);
    var b0, b1, b2, b3 := b[0] as int, b[1] as int, b[2] as int, b[3] as int;
    assert n == b0 * 0x100_0000 + b1 * 0x1_0000 + b2 * 0x100 + b3;
    DigitsOf(b0, b1, b2, b3);
  }

  /** On a little-endian host the reader misreads a big-endian length: the length 1 reads as 2^24. */
  lemma LittleEndianMisreadsBE32()
    ensures U32(LittleEndian, BE32(1)) == 0x100_0000
  {
    assert BE32(1) == [0, 0, 0, 1];
  }
}
