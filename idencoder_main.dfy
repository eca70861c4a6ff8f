/** The older `package main` copy of the encoder. Its configuration has the
    same three fields (alphabet, blockSize, modulus) and its checksum,
    scramble, enbase, debase, times and leftPad are the package's, line for
    line, so this module calls those of IdEncoder. What differs is the flag:
    Encode and Decode report an error flag, not a success flag. */
module IdEncoderMain {
  import opened Words
  import I = IdEncoder

  /** What this copy's Decode returns for s: the same value as the package's,
      and true exactly when the checksum does not match. */
  function Decoded(e: I.IDEncoder, s: seq<Byte>): (U64, bool)
    requires I.Valid(e) && |s| >= 1
  {
    var (value, ok) := I.Decoded(e, s);
    (value, !ok)
  }

  /** `Encode`: the same bytes as the package's Encode; the flag is always
      false. */
  method Encode(e: I.IDEncoder, n: U64, minLength: U64) returns (encoded: seq<Byte>, err: bool)
    requires I.CanEncode(e, n, minLength)
    ensures !err
    ensures encoded == I.EncodedAsWritten(e, n, minLength)
    ensures I.IsAscii(I.Checksum(e, n)) ==> encoded == I.Encoded(e, n, minLength)
  {
    var scrambled := I.Scramble(e, n);
    var body := I.Enbase(e, scrambled, minLength);
    encoded := I.RuneBytes(I.Checksum(e, n)) + body;
    err := false;
  }

  /** `Decode`: the package's Decode with the flag inverted. */
  method Decode(e: I.IDEncoder, s: seq<Byte>) returns (value: U64, err: bool)
    requires I.Valid(e) && |s| >= 1
    ensures (value, err) == Decoded(e, s)
    ensures err <==> s[0] != I.Checksum(e, value)
  {
    var scrambled := I.Debase(e, s[1..]);
    value := I.Scramble(e, scrambled);
    err := false;
    if I.Checksum(e, value) != s[0] {
      err := true;
    }
  }

  /** Decoding an encoding gives back the number with the error flag clear. */
  lemma DecodeEncode(e: I.IDEncoder, n: U64, minLength: nat)
    requires I.RoundTrips(e)
    ensures Decoded(e, I.Encoded(e, n, minLength)) == (n, false)
  {
    I.DecodeEncode(e, n, minLength);
  }
}
