/**
 Keyed random padding: a padding length derived from a keyed BLAKE2b-256
 digest of a nonce, and the transforms that prepend and strip that many zero
 bytes.

 The keyed hash is not modelled: `Length` takes it as a parameter `hash`, a
 function from (key, message) to a 32-byte digest. Go's panics are
 preconditions; the one recoverable error, a padding longer than the padded
 text, is a `Failure`.
 */
module Padding {
  import opened Bits
  import opened BigEndian
  import opened Wrappers

  /** Output size of BLAKE2b-256, in bytes. */
  const DigestSize := 32
  /** Longest key blake2b.New256 accepts; a longer one makes it return an error. */
  const MaxKeySize := 64

  type Digest = d: seq<byte> | |d| == DigestSize witness seq(32, _ => 0)

  /** Keyed BLAKE2b-256: (key, message) to digest. */
  type Hasher = (seq<byte>, seq<byte>) -> Digest

  datatype PadError = PlaintextShorterThanPadding

  /** Go's isUint32: the range check both Length and IntToBinary apply. */
  function IsUint32(i: int): (ok: bool)
    ensures ok <==> 0 <= i < 0x1_0000_0000 && i != MaxUint32
  {
    i >= 0 && i < MaxUint32
  }

  /**
   The two checks Length makes on maxlen before hashing, in the order it makes
   them; MaxlenChecksAccept states which values pass.
   */
  predicate PassesMaxlenChecks(maxlen: int) {
    IsUint32(maxlen) && And(maxlen, Sub(maxlen, 1)) == 0
  }

  /**
   The checks accept exactly the powers of two below 2^32 - 1, and 0:
   for maxlen = 0 the subtraction wraps to 2^32 - 1 and 0 & (2^32 - 1) is 0.
   */
  lemma MaxlenChecksAccept(maxlen: int)
    ensures PassesMaxlenChecks(maxlen) <==>
              maxlen == 0 || (IsPowerOfTwo(maxlen) && maxlen < MaxUint32)
  {
    if 1 <= maxlen < MaxUint32 {
      PowerOfTwoTest(maxlen);
    }
  }

  /** 6 is turned away for not being a power of two; 16 passes. */
  lemma MaxlenCheckExamples()
    ensures !PassesMaxlenChecks(6)
    ensures PassesMaxlenChecks(16)
  {
  }

  /** The first four digest bytes, read big-endian: Length's random value r. */
  function DigestPrefix(d: Digest): (r: uint32)
    ensures r == Value(d[..4])
  {
    assert d[..4][..4] == d[..4];
    Uint32(d[..4])
  }

  /**
   Length: the padding length for nonce under key, r & (maxlen - 1) where r is
   the big-endian value of the digest's first four bytes. For maxlen >= 1 that
   is r mod maxlen, in [0, maxlen); for maxlen = 0, which the checks let
   through, it is r itself.
   */
  function Length(maxlen: int, nonce: seq<byte>, key: seq<byte>, hash: Hasher): (padlen: nat)
    requires PassesMaxlenChecks(maxlen)
    requires |key| <= MaxKeySize
    ensures maxlen >= 1 ==> padlen == DigestPrefix(hash(key, nonce)) % maxlen
    ensures maxlen >= 1 ==> padlen < maxlen
    ensures maxlen == 1 ==> padlen == 0
    ensures maxlen == 0 ==> padlen == DigestPrefix(hash(key, nonce))
  {
    var max: uint32 := maxlen;
    var d := hash(key, nonce);
    var r := Uint32(d[..4]);
    MaskedPrefix(r, max);
    And(r, Sub(max, 1))
  }

  /** What the mask in Length yields, for a power-of-two bound and for the bound 0. */
  lemma MaskedPrefix(r: uint32, max: uint32)
    requires And(max, Sub(max, 1)) == 0
    ensures max >= 1 ==> And(r, Sub(max, 1)) == r % max
    ensures max == 0 ==> And(r, Sub(max, 1)) == r
  {
    if max >= 1 {
      PowerOfTwoTest(max);
      MaskIsRemainder(r, max);
    } else {
      AllOnesMask(r);
    }
  }

  /**
   Length with the zero bound rejected as well, so that, as its documentation
   says, every accepted maxlen is a power of two and the result is below it.
   */
  function LengthStrict(maxlen: int, nonce: seq<byte>, key: seq<byte>, hash: Hasher): (padlen: nat)
    requires PassesMaxlenChecks(maxlen) && maxlen != 0
    requires |key| <= MaxKeySize
    ensures IsPowerOfTwo(maxlen)
    ensures padlen < maxlen
    ensures padlen == DigestPrefix(hash(key, nonce)) % maxlen
  {
    PowerOfTwoTest(maxlen);
    Length(maxlen, nonce, key, hash)
  }

  /**
   With maxlen = 0 both checks pass and Length returns the raw 32-bit value:
   a digest starting with four 0xFF bytes asks for 2^32 - 1 bytes of padding,
   outside the documented range [0, maxlen).
   */
  lemma ZeroMaxlenIsUnbounded()
    ensures PassesMaxlenChecks(0)
    ensures Length(0, [], [], (k: seq<byte>, m: seq<byte>) => seq(32, _ => 0xFF)) == MaxUint32
  {
  }

  /** IntToBinary: i as four big-endian bytes; Go panics unless isUint32(i). */
  function IntToBinary(i: int): (b: seq<byte>)
    requires IsUint32(i)
    ensures |b| == 4
    ensures Value(b) == i
    ensures Uint32(b) == i
  {
    var b := PutUint32(i);
    assert b[..4] == b;
    b
  }

  /** The encodings of 1 and 256. */
  lemma IntToBinaryExamples()
    ensures IntToBinary(1) == [0, 0, 0, 1]
    ensures IntToBinary(256) == [0, 0, 1, 0]
  {
  }

  /** Two integers IntToBinary accepts have the same encoding only if they are equal. */
  lemma IntToBinaryInjective(i: int, j: int)
    requires IsUint32(i) && IsUint32(j)
    ensures IntToBinary(i) == IntToBinary(j) <==> i == j
  {
  }

  /** Pad: padlen zero bytes followed by pt. */
  function Pad(pt: seq<byte>, padlen: nat): (p: seq<byte>)
    ensures |p| == padlen + |pt|
    ensures forall i :: 0 <= i < padlen ==> p[i] == 0
    ensures p[padlen..] == pt
  {
    seq(padlen, _ => 0) + pt
  }

  /** Unpad: the bytes of p after the first padlen, or an error when p is shorter than padlen. */
  function Unpad(p: seq<byte>, padlen: nat): (r: Result<seq<byte>, PadError>)
    ensures r.Failure? <==> padlen > |p|
    ensures r.Success? ==> |r.value| == |p| - padlen && p == p[..padlen] + r.value
  {
    if !(padlen <= |p|) then Failure(PlaintextShorterThanPadding)
    else Success(p[padlen..])
  }

  /** Two bytes cannot carry five bytes of padding. */
  lemma UnpadShortExample()
    ensures Unpad([1, 2], 5) == Failure(PlaintextShorterThanPadding)
  {
  }

  /** Unpad undoes Pad, for every plaintext (the empty one too) and every padding length. */
  lemma UnpadPad(pt: seq<byte>, padlen: nat)
    ensures Unpad(Pad(pt, padlen), padlen) == Success(pt)
  {
  }

  /** Pad undoes a successful Unpad whenever the stripped bytes were zero. */
  lemma PadUnpad(p: seq<byte>, padlen: nat)
    requires padlen <= |p|
    requires forall i :: 0 <= i < padlen ==> p[i] == 0
    ensures Unpad(p, padlen).Success?
    ensures Pad(Unpad(p, padlen).value, padlen) == p
  {
  }

  /**
   A sender and a receiver that share the key and the nonce derive the same
   padding length, so the receiver's Unpad recovers the sender's plaintext;
   for maxlen >= 1 the padded text is also shorter than the plaintext plus
   maxlen (maxlen = 0 passes the checks too, but see ZeroMaxlenIsUnbounded).
   */
  lemma SharedLengthRoundTrip(maxlen: int, nonce: seq<byte>, key: seq<byte>, hash: Hasher, pt: seq<byte>)
    requires PassesMaxlenChecks(maxlen) && maxlen >= 1
    requires |key| <= MaxKeySize
    ensures var padlen := Length(maxlen, nonce, key, hash);
            Unpad(Pad(pt, padlen), Length(maxlen, nonce, key, hash)) == Success(pt)
            && |Pad(pt, padlen)| < |pt| + maxlen
  {
  }
}
