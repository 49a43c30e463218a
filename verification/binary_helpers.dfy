/** The save-file encoder (src/binary_helpers.rs): big-endian 32-bit integers,
    length-prefixed records and length-prefixed lists of records. */
module BinaryHelpers {

  const TwoTo32: nat := 0x1_0000_0000

  type Byte = b: nat | b < 256
  type U32 = n: nat | n < TwoTo32
  type I32 = i: int | -0x8000_0000 <= i < 0x8000_0000

  /** `u32_as_bytes`: the four bytes of `input`, most significant first. Each
      `(input >> k) as u8` keeps bits k..k+7. */
  function U32AsBytes(input: U32): (r: seq<Byte>)
    ensures |r| == 4
  {
    [(input / 0x100_0000) % 256, (input / 0x1_0000) % 256, (input / 0x100) % 256, input % 256]
  }

  /** The bytes are the base-256 digits of the input, most significant first:
      byte 0 holds bits 24..31 and byte 3 holds bits 0..7. */
  lemma U32AsBytesBigEndian(input: U32)
    ensures var r := U32AsBytes(input);
      input == r[0] as int * 0x100_0000 + r[1] as int * 0x1_0000 + r[2] as int * 0x100 + r[3] as int
  {
    var q1 := input / 0x100;
    var q2 := input / 0x1_0000;
    assert q2 == q1 / 0x100;
    assert input / 0x100_0000 == q2 / 0x100;
  }

  /** The two's-complement bit pattern of a signed 32-bit value. */
  function TwosComplement(v: I32): (u: U32)
    ensures 0 <= v ==> u == v
    ensures v < 0 ==> u == v + TwoTo32
  {
    if v < 0 then v + TwoTo32 else v
  }

  /** `i32_as_bytes`: `>>` on `i32` shifts arithmetically and `as u8` keeps the
      low eight bits, which is floor division followed by a non-negative
      remainder. The result is the bytes of the two's-complement pattern. */
  function I32AsBytes(input: I32): (r: seq<Byte>)
    ensures |r| == 4
    ensures r == U32AsBytes(TwosComplement(input))
  {
    ShiftedBytesAreTwosComplement(input);
    [(input / 0x100_0000) % 256, (input / 0x1_0000) % 256, (input / 0x100) % 256, input % 256]
  }

  /** The low bytes of the arithmetic shifts of v are those of v + 2^32 when
      v is negative. */
  lemma ShiftedBytesAreTwosComplement(v: I32)
    ensures [(v / 0x100_0000) % 256, (v / 0x1_0000) % 256, (v / 0x100) % 256, v % 256]
         == U32AsBytes(TwosComplement(v))
  {
    if v < 0 {
      DivShift(v, 0x100_0000, 256);
      DivShift(v, 0x1_0000, 0x1_0000);
      DivShift(v, 0x100, 0x100_0000);
      DivShift(v, 1, TwoTo32);
      var u := v + TwoTo32;
      assert TwosComplement(v) == u;
      assert U32AsBytes(u) == [(u / 0x100_0000) % 256, (u / 0x1_0000) % 256, (u / 0x100) % 256, u % 256];
    }
  }

  /** Adding 2^32 = c·m, with m a multiple of 256, shifts the quotient by m
      and leaves its low byte unchanged. */
  lemma DivShift(v: int, c: int, m: int)
    requires c > 0 && m > 0 && m % 256 == 0 && c * m == TwoTo32
    ensures ((v + TwoTo32) / c) % 256 == (v / c) % 256
  {
    var q := v / c;
    var r := v % c;
    assert v == q * c + r;
    assert (q + m) * c == q * c + m * c;
    DivUnique(v + TwoTo32, c, q + m, r);
    var j := m / 256;
    var q1 := q / 256;
    var q0 := q % 256;
    assert q + m == (q1 + j) * 256 + q0;
    DivUnique(q + m, 256, q1 + j, q0);
  }

  /** The quotient of division by a positive number is unique. */
  lemma DivUnique(x: int, c: int, q: int, r: int)
    requires c > 0 && 0 <= r < c && x == q * c + r
    ensures x / c == q
  {
    var q' := x / c;
    var r' := x % c;
    assert (q - q') * c == r' - r;
    if q - q' >= 1 {
      MulAtLeast(q - q', c);
    } else if q' - q >= 1 {
      MulAtLeast(q' - q, c);
    }
  }

  lemma MulAtLeast(d: int, c: int)
    requires d >= 1 && c > 0
    ensures d * c >= c
  {
  }

  /** `Binaryable::as_padded_binary`: the payload's length as a `u32` (the
      `as u32` cast wraps modulo 2^32), then the payload. */
  function AsPaddedBinary(payload: seq<Byte>): (r: seq<Byte>)
    ensures |r| == 4 + |payload|
    ensures r[..4] == U32AsBytes(|payload| % TwoTo32)
    ensures r[4..] == payload
  {
    U32AsBytes(|payload| % TwoTo32) + payload
  }

  /** The number of bytes the padded records of `items` take together. */
  function PaddedTotal(items: seq<seq<Byte>>): nat {
    if items == [] then 0 else 4 + |items[0]| + PaddedTotal(items[1..])
  }

  /** The padded records of `items` back to back, as the loop of `vec_as_bytes`
      builds them. */
  function PaddedList(items: seq<seq<Byte>>): (r: seq<Byte>)
    ensures |r| == PaddedTotal(items)
  {
    if items == [] then [] else AsPaddedBinary(items[0]) + PaddedList(items[1..])
  }

  /** `vec_as_bytes`: the padded records of every item, prefixed with their
      total length. The items are given by their `as_binary` encodings. */
  function VecAsBytes(items: seq<seq<Byte>>): (r: seq<Byte>)
    ensures items == [] ==> r == [0, 0, 0, 0]
    ensures |r| == 4 + PaddedTotal(items)
    ensures r[..4] == U32AsBytes(PaddedTotal(items) % TwoTo32)
  {
    AsPaddedBinary(PaddedList(items))
  }
}
