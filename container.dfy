/** Small failure-carrying result type used by the decoder. */
module Wrappers {
  datatype Result<+T, +E> = Success(value: T) | Failure(error: E)
}

/**
 * The fixed layout of a mozLz4 container and the C integer conversions the
 * decoder performs on it (main.c:18-23, 80-91).
 *
 *   bytes 0..8   "mozLz40" followed by one NUL byte (the magic)
 *   bytes 8..12  declared decompressed size, unsigned 32-bit little-endian
 *   bytes 12..   LZ4 block payload
 */
module Container {

  /** INT_MAX of the 32-bit C `int` the program and the LZ4 API use. */
  const IntMax: int := 0x7fff_ffff

  /** 2^32, the number of values of a 32-bit integer type. */
  const TwoTo32: int := 0x1_0000_0000

  /**
   * MOZLZ4_HEADER: the array `uint8_t[8]` initialised from the string
   * literal "mozLz40", whose eighth byte is therefore NUL.
   */
  const Magic: seq<bv8> := [0x6d, 0x6f, 0x7a, 0x4c, 0x7a, 0x34, 0x30, 0x00]

  /** MOZLZ4_SIZE_HEADER_SIZE: width of the declared-size field. */
  const SizeFieldLength: nat := 4

  /** MOZLZ4_LZ4_OFFSET: where the payload starts, `sizeof MOZLZ4_HEADER + 4`. */
  const PayloadOffset: nat := |Magic| + SizeFieldLength

  /**
   * The magic holds the seven characters of "mozLz40" followed by the NUL
   * that C stores after a string literal, and the payload starts at byte 12.
   */
  lemma MagicIsHeaderString()
    ensures |Magic| == |"mozLz40"| + 1 && PayloadOffset == 12
    ensures forall i :: 0 <= i < |"mozLz40"| ==> Magic[i] as int == "mozLz40"[i] as int
    ensures Magic[|"mozLz40"|] == 0
  {
  }

  /**
   * The declared-size field as the source computes it: the four bytes
   * widened to 32 bits, shifted by 0, 8, 16 and 24 and or-ed together.
   */
  function SizeField(b: seq<bv8>): (v: bv32)
    requires |b| == SizeFieldLength
    // no bit of one byte overlaps another: each byte is found again in its own 8 bits
    ensures SizeFieldBytes(v) == b
  {
    (b[0] as bv32) | ((b[1] as bv32) << 8) | ((b[2] as bv32) << 16) | ((b[3] as bv32) << 24)
  }

  /** The little-endian value of four bytes, in plain arithmetic. */
  function LittleEndianValue(b: seq<bv8>): (v: int)
    requires |b| == SizeFieldLength
    ensures 0 <= v < TwoTo32
  {
    b[0] as int + 0x100 * b[1] as int + 0x1_0000 * b[2] as int + 0x100_0000 * b[3] as int
  }

  /** One step of a little-endian read: shifting in a lower byte below a 24-bit prefix. */
  lemma ShiftInByte(y: bv32, b: bv8)
    requires y < 0x100_0000
    ensures ((y << 8) | (b as bv32)) as int == 0x100 * y as int + b as int
  {
  }

  /** The or of shifted bytes equals shifting each byte in below the higher ones. */
  lemma SizeFieldHorner(b: seq<bv8>)
    requires |b| == SizeFieldLength
    ensures SizeField(b)
      == (((((((b[3] as bv32) << 8) | (b[2] as bv32)) << 8) | (b[1] as bv32)) << 8) | (b[0] as bv32))
  {
  }

  /** The bitwise decoding of main.c:80-84 yields exactly the little-endian value. */
  lemma SizeFieldValue(b: seq<bv8>)
    requires |b| == SizeFieldLength
    ensures SizeField(b) as int == LittleEndianValue(b)
  {
    var y0: bv32 := b[3] as bv32;
    var y1: bv32 := (y0 << 8) | (b[2] as bv32);
    var y2: bv32 := (y1 << 8) | (b[1] as bv32);
    var y3: bv32 := (y2 << 8) | (b[0] as bv32);
    SizeFieldHorner(b);
    assert y0 as int == b[3] as int;
    assert y1 < 0x1_0000 && y2 < 0x100_0000;
    ShiftInByte(y0, b[2]);
    ShiftInByte(y1, b[1]);
    ShiftInByte(y2, b[0]);
  }

  /** The four bytes that encode `v` in the declared-size field. */
  function SizeFieldBytes(v: bv32): (b: seq<bv8>)
    ensures |b| == SizeFieldLength
  {
    [(v & 0xff) as bv8, ((v >> 8) & 0xff) as bv8, ((v >> 16) & 0xff) as bv8, ((v >> 24) & 0xff) as bv8]
  }

  /** Decoding the encoding of a value gives the value back. */
  lemma SizeFieldOfBytes(v: bv32)
    ensures SizeField(SizeFieldBytes(v)) == v
  {
  }

  /**
   * The C conversion of an integer to the 32-bit `int` type on a
   * two's-complement target: the value is reduced modulo 2^32 into
   * [-2^31, 2^31). Used for `(int)header_size_u` and for
   * `(int)(mozlz4_size - MOZLZ4_LZ4_OFFSET)`.
   */
  function ToCInt(n: int): (r: int)
    ensures -IntMax - 1 <= r <= IntMax
    ensures (r - n) % TwoTo32 == 0
  {
    var m := n % TwoTo32;
    if m <= IntMax then m else m - TwoTo32
  }

  /** A value in the range of `int` is converted exactly. */
  lemma ToCIntExact(n: int)
    requires -IntMax - 1 <= n <= IntMax
    ensures ToCInt(n) == n
  {
  }

  /**
   * An unsigned 32-bit value above INT_MAX would turn negative if it were
   * converted instead of rejected.
   */
  lemma ToCIntWrapsAboveIntMax(n: int)
    requires IntMax < n < TwoTo32
    ensures ToCInt(n) == n - TwoTo32 < 0
  {
  }
}
