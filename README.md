# idencoder-go, modelled in Dafny

`idencoder` turns unsigned 64-bit integer IDs (usually sequential ones) into
short strings over a configurable alphabet, and back. An encoder is configured
by three things:
- an alphabet of byte symbols;
- a block size: how many low bits get reversed;
- a checksum modulus.

Encoding `n` works in three steps:
1. Take the checksum symbol `Alphabet[n mod Checksum]`.
2. Scramble `n`: reverse its lowest `BlockSize` bits and keep the bits above them.
3. Write the scrambled number in base `len(Alphabet)`, most significant symbol
   first, left-padded with the first symbol up to `minLength` symbols.

Decoding reads the tail back as a number, unscrambles it, and compares the head
with the checksum symbol of the result.

The repository holds two copies of this code:
- `idencoder/idencoder.go` is the library. Its flag means success.
- `idencoder.go` is an older `package main` copy. Its helpers are the same
  line for line, but its flag means error.

The project has three files:

- `words.dfy`, module `Words`: Go's `uint64` as a bounded `nat` (`U64`), its
  wrap-around written out as `% 2^64`, and `byte` as `bv8`. It also holds the
  bit operations the scrambler uses, stated arithmetically:
  - `n >> k` is `Shr`;
  - `n & (1<<k) != 0` is `Bit`;
  - `n | 1<<k` is `SetBit`.

  Finally, it has a little-endian bit-string view of numbers (`ToBits`,
  `FromBits`) with its round-trip lemmas.
- `idencoder.dfy`, module `IdEncoder`: the library.
  - Every loop of the source is a method proved against a specification
    function: `Scramble` against `Scrambled`, `Enbase` against `Enbased`,
    `Debase` against `Debased`, plus `Times` and `LeftPad`.
  - `Encode` and `Decode` are methods whose results are tied to
    `EncodedAsWritten` and `Decoded`.
  - The promised properties are lemmas about those functions: the scramble is
    an involution, debase undoes enbase, decode undoes encode, no two IDs
    collide, and the checksum detects a changed head.
- `idencoder_main.dfy`, module `IdEncoderMain`: the `package main` copy's
  `Encode` and `Decode`, with the error-flag polarity. They call the library
  module's helpers, because the helper code is the same.

Go panics become preconditions, so a caller that meets a member's `requires`
is a caller for which the source does not panic:
- indexing outside the alphabet;
- integer division by zero: a checksum modulus of 0 in `checksum`, and an
  empty alphabet in `enbase`'s `x % n`;
- `b[1:]` on an empty string;
- `make` with a wrapped-around length.

## Model

| member | source | states |
|---|---|---|
| IdEncoder.Checksum | idencoder/idencoder.go:100-102 | the checksum symbol is a symbol of the alphabet; in a duplicate-free alphabet its position is n mod Checksum, which is what Decode checks |
| IdEncoder.Scramble | idencoder/idencoder.go:104-113 | the masking-and-mirroring loop computes Scrambled(n): the low BlockSize bits reversed, the higher bits kept |
| IdEncoder.ScrambledBits | idencoder/idencoder.go:16-17 | bit i of the scrambled number is bit BlockSize-1-i of n inside the block, and bit i of n above it |
| IdEncoder.ScrambleInvolution | idencoder/idencoder.go:104-113 | scrambling twice gives back n, for every n and every block size up to 64 |
| IdEncoder.ScrambleIdentityAtZero | idencoder/idencoder.go:18-19 | a block size of 0 leaves every number unchanged |
| IdEncoder.ScrambledInBlock | idencoder/idencoder.go:104-113 | a number below 2^BlockSize scrambles to a number below 2^BlockSize |
| IdEncoder.ScrambledAtLeast | idencoder/idencoder.go:105-106 | the scrambled number is at least the part of n above the block (`n & ^mask`) |
| Words.SetBitBits | idencoder/idencoder.go:109 | or-ing `1 << k` into the result sets bit k and changes no other bit |
| IdEncoder.Digits | idencoder/idencoder.go:118-122 | the numeral of x is empty exactly when x is 0, and uses only symbols of the alphabet |
| IdEncoder.Times | idencoder/idencoder.go:136-142 | the buffer has n bytes, each equal to c |
| IdEncoder.LeftPad | idencoder/idencoder.go:144-146 | the result has exactly `length` bytes, ends with str, and has only pad bytes before it |
| IdEncoder.Enbased | idencoder/idencoder.go:115-124 | the padded numeral: at least minLength symbols and exactly minLength when the digits fit, ending with the digits of x, holding only the zero symbol before them, and using only symbols of the alphabet |
| IdEncoder.Enbase | idencoder/idencoder.go:115-124 | the digit loop and leftPad produce Enbased(x, minLength), and with the digits fitting that is exactly minLength symbols |
| IdEncoder.DigitsLength | idencoder/idencoder.go:118-122 | a number below K^m has at most m digits, so it fits the padding |
| IdEncoder.DigitsLengthLower | idencoder/idencoder.go:118-122 | a number of at least K^m has more than m digits |
| IdEncoder.IndexByte | idencoder/idencoder.go:131 | the position found is the first occurrence of the byte, and it is -1 exactly when the byte is absent |
| IdEncoder.Debase | idencoder/idencoder.go:126-134 | the multiply-and-add loop computes Debased: the wrapped uint64 fold over the symbols |
| IdEncoder.DebasedExact | idencoder/idencoder.go:126-134 | when the exact value of a numeral over the alphabet fits in 64 bits, Debase does not wrap and returns that value |
| IdEncoder.ValueDigits | idencoder/idencoder.go:115-134 | reading back the digits of x gives x, in a duplicate-free alphabet of at least two symbols |
| IdEncoder.ValueZeroPrefix | idencoder/idencoder.go:144-146 | leading zero symbols added by the padding do not change the value |
| IdEncoder.DebaseEnbase | idencoder/idencoder.go:115-134 | debase(enbase(x, minLength)) == x for every x and every padding length |
| IdEncoder.RuneBytes | idencoder/idencoder.go:86 | `string(byte)` is one byte below 0x80, and otherwise two UTF-8 bytes that encode the code point |
| IdEncoder.Encoded | idencoder/idencoder.go:84-87 | the intended encoding: the checksum symbol as one byte, then at least minLength symbols, exactly minLength when the numeral fits; every symbol is from the alphabet |
| IdEncoder.EncodedAsWritten | idencoder/idencoder.go:86 | the source's bytes equal Encoded when the checksum symbol is ASCII, and are one byte longer otherwise |
| IdEncoder.Encode | idencoder/idencoder.go:84-87 | returns the source's bytes and a true flag; these are the intended encoding when the checksum symbol is ASCII |
| IdEncoder.Decode | idencoder/idencoder.go:90-98 | returns the unscrambled value of the tail, and the flag is true exactly when the head equals the checksum symbol of that value |
| IdEncoder.DecodeEncode | idencoder/idencoder.go:90-98 | for every configuration with a duplicate-free alphabet of at least two symbols, 0 < Checksum <= len(Alphabet) and a block size of at most 64, decoding the encoding of any n with any minLength gives (n, true) |
| IdEncoder.EncodeInjective | idencoder/idencoder.go:6-8 | under one such configuration and padding length, distinct IDs never share an encoding: neither the intended one nor the source's bytes, for any alphabet, since the first byte tells a one-byte head from a two-byte one |
| IdEncoder.ChecksumDetectsHeadChange | idencoder/idencoder.go:93-96 | replacing the checksum symbol of an encoding with any other byte still decodes n, but with the flag false |
| IdEncoder.DefaultRoundTrips | idencoder/idencoder.go:65-74 | the default alphabet has 31 distinct ASCII symbols and the default configuration meets what the round trip needs |
| IdEncoder.DefaultDistinct | idencoder/idencoder.go:70 | the 31 default symbols are pairwise distinct |
| IdEncoder.DefaultPositionIsIndex | idencoder/idencoder.go:70 | each default symbol's listed position is the position `bytes.IndexByte` finds for it |
| IdEncoder.DefaultRoundTrip | idencoder/idencoder.go:65-74 | under the defaults, every n below 2^24 encodes into exactly six symbols, the source's bytes equal the intended ones, and the encoding decodes back to (n, true) |
| IdEncoder.DefaultLongNumbersOverflowPadding | idencoder/idencoder.go:144-146 | under the defaults, every n from 2^25 on has more than five digits once scrambled, so the source's Encode cannot pad it; the intended encoding is longer and still decodes back |
| IdEncoder.NonAsciiChecksumBreaksRoundTrip | idencoder/idencoder.go:86 | with the checksum symbol 0xE9, Encode(0) gives the bytes C3 A9, and Decode of those gives (2^64-1, false) instead of (0, true) |
| IdEncoderMain.Encode | idencoder.go:75-78 | the same bytes as the library's Encode, and an error flag that is always false |
| IdEncoderMain.Decode | idencoder.go:81-89 | the same value as the library's Decode, and the error flag is true exactly when the head differs from the checksum symbol |
| IdEncoderMain.DecodeEncode | idencoder.go:81-89 | under the same conditions as the library's round trip, decoding the encoding of any n gives (n, false): the value back, and no error |

## Left out

- The command-line program in `main.go` is not part of this model. That covers
  argument parsing, printing, the random alphabet generator (time-seeded
  randomness), and the timed benchmark.
- `fmt.Sprintf("%v%v", a, b)` on two strings is modelled as byte-sequence
  concatenation. String formatting itself is not modelled.
- `bytes.IndexByte` is not part of this model. It is replaced by `IndexByte`,
  which is written from its documented contract.
- IdEncoder.Scramble: requires a block size of at most 64. Larger block sizes
  go through Go's shifts of 64 or more bits, which this model does not follow.
- IdEncoder.Enbase: requires an alphabet of at least two symbols whenever x is
  not 0. With one symbol, the source's loop never ends; with none, it divides
  by zero. It also requires at least one symbol, for the padding byte.
- IdEncoder.Enbase and IdEncoder.Encode: require that the numeral fits in
  minLength symbols, because the source panics otherwise (see Findings).
- IdEncoder.Decode: requires `0 < Checksum <= len(Alphabet)` and a non-empty
  input. The source panics on an empty input. With a larger modulus, it panics
  only for the values whose checksum index falls outside the alphabet, so this
  requirement is stronger than the source's for the other values.
- IdEncoderMain.Decode: the same requirement as IdEncoder.Decode, for the same
  reason.
- The helpers of `idencoder.go` (its `checksum`, `scramble`, `enbase`,
  `debase`, `times` and `leftPad`) are not modelled a second time. They are
  the same code as the library's, so its module calls the library module's
  members.
- Decoding a string with a byte that is not in the alphabet does not fail with
  an error. Following the code, `bytes.IndexByte` returns -1, which becomes
  2^64-1 as a uint64 and wraps the fold (`Debased`). The result is a wrong
  value, and its checksum usually does not match.
- Decoding a one-byte string gives the scramble of 0 and the checksum
  comparison, following the code. It is not treated as an error.

## Findings

| source | as written | input that shows it | evidently intended | confidence | as-written member | corrected member |
|---|---|---|---|---|---|---|
| idencoder/idencoder.go:86 | `string(i.checksum(n))` converts the checksum byte as a code point, so a symbol from 0x80 on becomes two UTF-8 bytes (the same code is at idencoder.go:77) | alphabet `[0xE9, 0x61]`, block size 0, modulus 1: Encode(0, 0) gives `C3 A9`, and Decode of that gives (2^64-1, false) | the checksum symbol as one byte, so that Decode(Encode(n)) gives (n, true) for every alphabet of distinct byte symbols | not executed; high | IdEncoder.NonAsciiChecksumBreaksRoundTrip | IdEncoder.Encoded |
| idencoder/idencoder.go:144-146 | `length-uint64(len(str))` wraps when the numeral is longer than minLength, and `make` then panics (the same code is at idencoder.go:135-137) | the default configuration with minLength 5 and any n ≥ 2^25: the scrambled value is at least 2^25 > 31^5, so it has six or more digits | minLength is a minimum, so a longer numeral is left unpadded and still decodes back | not executed; high | IdEncoder.DefaultLongNumbersOverflowPadding | IdEncoder.Enbased |
