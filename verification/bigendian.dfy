/**
 The fixed-width big-endian encoding of a uint32 (Go's encoding/binary
 BigEndian.PutUint32 and BigEndian.Uint32) and the positional value of a byte
 string read most significant byte first, against which both are checked.
 */
module BigEndian {
  import opened Bits

  /** The value of b as a base-256 numeral, most significant byte first. */
  function Value(b: seq<byte>): nat
  {
    if |b| == 0 then 0 else Value(b[..|b| - 1]) * 0x100 + b[|b| - 1]
  }

  /** BigEndian.PutUint32: byte(v >> 24), byte(v >> 16), byte(v >> 8), byte(v). */
  function PutUint32(v: uint32): (b: seq<byte>)
    ensures |b| == 4
    ensures Value(b) == v
  {
    var b := [v / 0x100_0000 % 0x100, v / 0x1_0000 % 0x100, v / 0x100 % 0x100, v % 0x100];
    ValueOfFour(b);
    Digits(v);
    b
  }

  /** BigEndian.Uint32: the first four bytes of b as a uint32; Go panics on a shorter b. */
  function Uint32(b: seq<byte>): (v: uint32)
    requires |b| >= 4
    ensures v == Value(b[..4])
  {
    ValueOfFour(b[..4]);
    b[0] as int * 0x100_0000 + b[1] as int * 0x1_0000 + b[2] as int * 0x100 + b[3] as int
  }

  lemma ValueOfFour(b: seq<byte>)
    requires |b| == 4
    ensures Value(b) == b[0] as int * 0x100_0000 + b[1] as int * 0x1_0000 + b[2] as int * 0x100 + b[3] as int
  {
    assert b[..3][..2] == b[..2] && b[..2][..1] == b[..1] && b[..1][..0] == [];
    assert Value(b[..1]) == b[0];
    assert Value(b[..2]) == b[0] as int * 0x100 + b[1] as int;
    assert Value(b[..3]) == Value(b[..2]) * 0x100 + b[2] as int;
  }

  /** Splitting a uint32 into its four base-256 digits loses nothing. */
  lemma Digits(v: uint32)
    ensures v == (v / 0x100_0000 % 0x100) * 0x100_0000 + (v / 0x1_0000 % 0x100) * 0x1_0000
               + (v / 0x100 % 0x100) * 0x100 + v % 0x100
  {
    var q1, r0 := v / 0x100, v % 0x100;
    var q2, r1 := q1 / 0x100, q1 % 0x100;
    var q3, r2 := q2 / 0x100, q2 % 0x100;
    assert q3 < 0x100;
    assert v == 0x100_0000 * q3 + (0x1_0000 * r2 + 0x100 * r1 + r0);
    DivModUnique(v, 0x100_0000, q3, 0x1_0000 * r2 + 0x100 * r1 + r0);
    DivModUnique(v, 0x1_0000, 0x100 * q3 + r2, 0x100 * r1 + r0);
    DivModUnique(0x100 * q3 + r2, 0x100, q3, r2);
    DivModUnique(q3, 0x100, 0, q3);
  }

  /** Decoding an encoded value gives the value back. */
  lemma DecodeEncode(v: uint32)
    ensures Uint32(PutUint32(v)) == v
  {
    assert PutUint32(v)[..4] == PutUint32(v);
  }

  /** Encoding the decoded value reproduces the four bytes it was read from. */
  lemma EncodeDecode(b: seq<byte>)
    requires |b| >= 4
    ensures PutUint32(Uint32(b)) == b[..4]
  {
    var b0, b1, b2, b3: nat := b[0], b[1], b[2], b[3];
    var v := Uint32(b);
    DivModUnique(v, 0x100_0000, b0, b1 * 0x1_0000 + b2 * 0x100 + b3);
    DivModUnique(v, 0x1_0000, b0 * 0x100 + b1, b2 * 0x100 + b3);
    DivModUnique(b0 * 0x100 + b1, 0x100, b0, b1);
    DivModUnique(v, 0x100, b0 * 0x1_0000 + b1 * 0x100 + b2, b3);
    DivModUnique(b0 * 0x1_0000 + b1 * 0x100 + b2, 0x100, b0 * 0x100 + b1, b2);
    DivModUnique(b0, 0x100, 0, b0);
  }
}
