# padding, modelled in Dafny

The Go package `padding` adds keyed random padding to messages. `Length`
derives a padding length from a keyed BLAKE2b-256 digest of a nonce: the
first four digest bytes are read as a big-endian uint32 `r`, and the result is
`r & (maxlen - 1)`. For `maxlen >= 1` that length lies in `[0, maxlen)`.
`maxlen = 0` also passes the checks and yields the unreduced 32-bit value (see
Findings). `Pad` prepends that many zero bytes.
`Unpad` strips them again and fails when the padding is longer than the padded
text. `IntToBinary` writes a length as four big-endian bytes. `isUint32` is the
range check that `Length` and `IntToBinary` share.

The model has four modules:

- `Bits` (bits.dfy): Go's uint32 arithmetic. Values are integers in
  `[0, 2^32)`. The wrapping subtraction `Sub` is written out modulo 2^32. The
  bitwise AND `And` is defined bit by bit. Lemmas proved by induction show that,
  for `m >= 1`, `m & (m - 1) == 0` picks out the powers of two (in uint32, 0
  also passes because `0 - 1` wraps to `2^32 - 1`), that masking with
  `2^k - 1` gives the remainder mod `2^k`, and that the all-ones mask changes
  nothing.
- `BigEndian` (bigendian.dfy): `encoding/binary`'s `BigEndian.PutUint32` and
  `BigEndian.Uint32`. Both are checked against `Value`, the base-256 value of
  a byte string, and against each other in both directions.
- `Wrappers` (wrappers.dfy): the `Result` type for `Unpad`'s error return.
- `Padding` (padding.dfy): `IsUint32`, `Length`, `IntToBinary`, `Pad` and
  `Unpad`, with their round trips and the `maxlen = 0` finding.

Go's panics are modelled as preconditions. These are `isUint32` failing, `maxlen` not
passing the power-of-two test, and `blake2b.New256` rejecting a key longer
than 64 bytes. The recoverable error of `Unpad` is a `Failure` value.

Uint32 arithmetic is written over integers rather than `bv32`. Dafny's
conversions between bit-vectors and integers are beyond what the solver can
prove here, and the length is returned as a Go `int`. The wrap-around is still
explicit: `Sub(0, 1) == 2^32 - 1`.

`isUint32` accepts `0 <= i < 2^32 - 1`, so it rejects `2^32 - 1` itself. This
matches the stated bound on `maxlen` (padding.go:19). It is stricter than the
wording "a valid uint32" on `IntToBinary` (padding.go:41). The model follows
the code.

## Model

| member | source | states |
|---|---|---|
| Padding.IsUint32 | padding.go:67-72 | accepts exactly the uint32 values other than 2^32 - 1 |
| Padding.MaxlenChecksAccept | padding.go:21-27 | the two checks on maxlen pass exactly for 0 and for powers of two below 2^32 - 1, both directions |
| Padding.MaxlenCheckExamples | padding.go:24-27 | maxlen 6 is rejected as not a power of two; 16 is accepted |
| Padding.DigestPrefix | padding.go:35 | the random value r is the base-256 value of the digest's first four bytes |
| Padding.Length | padding.go:18-38 | for maxlen >= 1 the padding length is the big-endian value of the first four digest bytes mod maxlen, so it lies in [0, maxlen), and it is 0 when maxlen is 1; for maxlen 0 it is that 32-bit value unreduced |
| Padding.MaskedPrefix | padding.go:24-36 | under the power-of-two check, r & (max - 1) is r mod max for max >= 1 and r itself for max 0, where max - 1 wraps |
| Padding.ZeroMaxlenIsUnbounded | padding.go:18-37 | maxlen 0 passes both checks, and a digest starting with four 0xFF bytes then yields 2^32 - 1 bytes of padding |
| Padding.LengthStrict | padding.go:18-27 | with 0 also rejected, every accepted maxlen is a power of two and the padding length is below it (corrected) |
| Padding.IntToBinary | padding.go:40-49 | four bytes whose big-endian value is i, which BigEndian.Uint32 decodes back to i |
| Padding.IntToBinaryExamples | padding.go:42-48 | 1 encodes as 00 00 00 01 and 256 as 00 00 01 00 |
| Padding.IntToBinaryInjective | padding.go:42-48 | distinct accepted integers have distinct encodings |
| Padding.Pad | padding.go:51-56 | result is padlen + len(pt) long, its first padlen bytes are zero and the rest is pt |
| Padding.Unpad | padding.go:58-65 | fails exactly when padlen > len(p); on success the result is what follows the first padlen bytes of p |
| Padding.UnpadShortExample | padding.go:60-62 | unpadding two bytes by five fails |
| Padding.UnpadPad | padding.go:52-65 | Unpad(Pad(pt, n), n) succeeds with pt for every pt, the empty one included, and every n >= 0 |
| Padding.PadUnpad | padding.go:52-65 | when the first n bytes of p are zero, Unpad(p, n) succeeds and Pad of its result rebuilds p |
| Padding.SharedLengthRoundTrip | padding.go:20-65 | for maxlen >= 1 and a shared key and nonce, unpadding by the derived length recovers the plaintext, and the padded text is shorter than len(pt) + maxlen |
| BigEndian.PutUint32 | padding.go:46-47 | four bytes whose base-256 value is v |
| BigEndian.Uint32 | padding.go:35 | the base-256 value of the first four bytes |
| BigEndian.DecodeEncode | padding.go:35-47 | decoding the encoding of v gives v |
| BigEndian.EncodeDecode | padding.go:35-47 | encoding the decoded value gives back the four bytes it was read from |
| Bits.Sub | padding.go:25 | uint32 subtraction: the plain difference when it is non-negative, else the difference plus 2^32 |
| Bits.And | padding.go:25 | the bitwise AND is at most each operand |
| Bits.PowerOfTwoTest | padding.go:25-26 | for m >= 1, m & (m - 1) == 0 holds exactly when m is a power of two |
| Bits.AndLowMask | padding.go:36 | a & (2^k - 1) is a mod 2^k |
| Bits.MaskIsRemainder | padding.go:36 | for a power of two m, a & (m - 1) is a mod m and below m |
| Bits.AllOnesMask | padding.go:36 | masking a uint32 with 2^32 - 1 leaves it unchanged |

## Left out

- BLAKE2b-256 itself. `Length` takes the keyed hash as a parameter: any function from (key, message) to 32 bytes. The model's results hold for every such function.
- The error `blake2b.New256` returns for a key longer than 64 bytes is a precondition `|key| <= 64`. The 64-byte limit belongs to that library, which is not part of this model.
- Constant-time behaviour of `subtle.ConstantTimeCopy` and `subtle.ConstantTimeLessOrEq`. Timing cannot be stated in Dafny. Only their results are modelled: a plain copy and a `<=` comparison.
- Statistical uniformity of `Length` and its sensitivity to bit flips in the nonce or key. These are probabilistic properties of the hash. The model proves only that the result is the digest prefix mod maxlen.
- Determinism of `Length` needs no lemma: it is a Dafny function of its inputs.
- Padding.Unpad: the model compares with a plain `<=`, the documented intent of `subtle.ConstantTimeLessOrEq`. That function is only defined for arguments below 2^31 and truncates them to 32 bits, so Go can differ from the model when `padlen` or `len(paddedpt)` is at least 2^31. For example, with `padlen = 0` and a buffer of 2^31 bytes Go reports an error while the model succeeds.
- Go's 64-bit `int` and negative `padlen`. For `Pad` and `Unpad`, `padlen` is a `nat`. `Pad` always panics on a negative `padlen`, in `make` or in the slice. `Unpad` with a negative `padlen` panics at the slice `paddedpt[padlen:]` unless the int32 wrap inside `ConstantTimeLessOrEq` makes the comparison return 0; then it returns the error instead. For example, `padlen = -2^31` with five bytes gives the error. `ConstantTimeLessOrEq` is only defined for non-negative 31-bit arguments.
- Slice aliasing: `Unpad` returns a view into its argument in Go. The model returns a value.
- Go's `BigEndian.Uint32` combines bytes with `|`. The model adds the shifted bytes, which gives the same value because the bytes occupy disjoint bit positions.

## Findings

| source | as written | input that shows it | evidently intended | confidence | as-written member | corrected member |
|---|---|---|---|---|---|---|
| padding.go:24-27 | `max&(max-1) != 0` is the only power-of-two check, and 0 passes it because `0 - 1` wraps to `2^32 - 1` and `0 & (2^32 - 1) == 0`; `Length` then returns the raw 32-bit digest prefix | `maxlen = 0` with a digest starting `FF FF FF FF` gives a padding length of 4294967295, although the documented range `[0:maxlen)` is empty | reject 0 along with the other non-powers of two (padding.go:19 says maxlen must be a power of two), so the result is always below maxlen | medium, not executed | Padding.ZeroMaxlenIsUnbounded | Padding.LengthStrict |
