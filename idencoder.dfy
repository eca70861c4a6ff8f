/** The ID encoder of package `idencoder`: a uint64 becomes a checksum symbol
    followed by the scrambled number written in the radix of the alphabet,
    left-padded with the alphabet's first symbol; decoding undoes the three
    steps and checks the checksum symbol.

    Each loop of the package is a method proved against a specification
    function (Scramble against Scrambled, Enbase against Enbased, Debase
    against Debased); the round-trip and collision properties are lemmas about
    those functions. */
module IdEncoder {
  import opened Words

  /** The encoder's configuration: symbol table, number of scrambled low
      bits, and checksum modulus. */
  datatype IDEncoder = IDEncoder(alphabet: seq<Byte>, blockSize: U64, checksum: U64)

  /** The defaults of the package: 31 symbols, 24 scrambled bits, modulus 29. */
  const DefaultAlphabet: seq<Byte> :=
    [0x33, 0x66, 0x71, 0x34, 0x72, 0x76, 0x35, 0x7a, 0x37, 0x68, 0x73, 0x64, 0x61, 0x6d, 0x6e, 0x38,
     0x62, 0x70, 0x79, 0x67, 0x77, 0x39, 0x36, 0x6a, 0x32, 0x63, 0x65, 0x74, 0x78, 0x75, 0x6b]
  const DefaultBlockSize: U64 := 24
  const DefaultChecksum: U64 := 29
  const MinLength: U64 := 5

  predicate Distinct(a: seq<Byte>)
  {
    forall i, j :: 0 <= i < j < |a| ==> a[i] != a[j]
  }

  /** What Decode needs of the configuration for every input: a checksum
      index that is always inside the alphabet, and shifts of at most 64. */
  predicate Valid(e: IDEncoder)
  {
    0 < e.checksum <= |e.alphabet| && e.blockSize <= 64
  }

  /** What the round trip needs besides: a real radix and no duplicate symbol. */
  predicate RoundTrips(e: IDEncoder)
  {
    Valid(e) && |e.alphabet| >= 2 && Distinct(e.alphabet)
  }

  predicate IsAscii(b: Byte)
  {
    b < 0x80
  }

  // ---------------------------------------------------------------- checksum

  /** The checksum symbol of n. */
  function Checksum(e: IDEncoder, n: U64): (c: Byte)
    requires e.checksum > 0 && n % e.checksum < |e.alphabet|
    ensures c in e.alphabet
    ensures Distinct(e.alphabet) ==> IndexByte(e.alphabet, c) == n % e.checksum
  {
    IndexByteOf(e.alphabet, n % e.checksum);
    e.alphabet[n % e.checksum]
  }

  // ---------------------------------------------------------------- scramble

  /** n with its low blockSize bits in reverse order and its higher bits as
      they were. */
  function Scrambled(e: IDEncoder, n: U64): U64
    requires e.blockSize <= 64
  {
    var bs := ToBits(n, 64);
    var b := e.blockSize;
    var s := Reverse(bs[..b]) + bs[b..];
    FromBitsBound(s);
    Pow2Is2To64();
    FromBits(s)
  }

  /** The value the scrambling loop holds after handling the bits below
      bit: bits bit-1 .. 0 of n mirrored into the top of the block, the
      bits above the block as in n, and everything else clear. */
  ghost function ScrambledUpTo(n: U64, b: nat, bit: nat): nat
    requires bit <= b <= 64
  {
    var bs := ToBits(n, 64);
    FromBits(Zeros(b - bit) + (Reverse(bs[..bit]) + bs[b..]))
  }

  /** The scrambling loop: start from n with its low blockSize bits cleared
      (`n & ^mask`) and, for each set bit below blockSize, set its mirror. */
  method Scramble(e: IDEncoder, n: U64) returns (r: U64)
    requires e.blockSize <= 64
    ensures r == Scrambled(e, n)
  {
    var b := e.blockSize;
    ScrambleStart(n, b);
    var result := Pow2(b) * Shr(n, b);
    var bit := 0;
    while bit < b
      invariant bit <= b
      invariant result == ScrambledUpTo(n, b, bit)
    {
      ScrambleStep(n, b, bit);
      if Bit(n, bit) {
        result := SetBit(result, b - bit - 1);
      }
      bit := bit + 1;
    }
    ghost var bs := ToBits(n, 64);
    assert Zeros(0) + (Reverse(bs[..b]) + bs[b..]) == Reverse(bs[..b]) + bs[b..];
    assert result == Scrambled(e, n);
    r := result;
  }

  /** Clearing the low b bits of n is where the scrambling loop starts. */
  lemma ScrambleStart(n: U64, b: nat)
    requires b <= 64
    ensures Pow2(b) * Shr(n, b) == ScrambledUpTo(n, b, 0)
  {
    var bs := ToBits(n, 64);
    var high := Shr(n, b);
    Pow2Is2To64();
    ShrBound(n, 64, b);
    ToBitsDrop(n, 64, b);
    FromBitsToBits(high, 64 - b);
    assert FromBits(bs[b..]) == high;
    FromBitsZerosPrefix(b, bs[b..]);
    assert Zeros(b) + (Reverse(bs[..0]) + bs[b..]) == Zeros(b) + bs[b..];
    assert ScrambledUpTo(n, b, 0) == Pow2(b) * high;
  }

  /** One turn of the scrambling loop: when bit `bit` of n is set, the mirror
      bit is still clear, and setting it handles one more bit. */
  lemma ScrambleStep(n: U64, b: nat, bit: nat)
    requires bit < b <= 64
    ensures (if Bit(n, bit) then SetBit(ScrambledUpTo(n, b, bit), b - bit - 1)
             else ScrambledUpTo(n, b, bit)) == ScrambledUpTo(n, b, bit + 1)
  {
    var bs := ToBits(n, 64);
    var k := b - bit - 1;
    var rest := Reverse(bs[..bit]) + bs[b..];
    assert bs[..bit + 1][..bit] == bs[..bit];
    assert Reverse(bs[..bit + 1]) + bs[b..] == [bs[bit]] + rest;
    assert Zeros(k + 1) + rest == Zeros(k) + ([false] + rest);
    ToBitsAt(n, 64, bit);
    if Bit(n, bit) {
      MirrorBitClear(k, rest);
      SetLowestAbove(k, rest);
    }
  }

  /** Below a bit string that starts with k + 1 zeros, bit k is clear. */
  lemma MirrorBitClear(k: nat, rest: seq<bool>)
    ensures !Bit(FromBits(Zeros(k + 1) + rest), k)
  {
    var x := FromBits(Zeros(k + 1) + rest);
    ToBitsFromBits(Zeros(k + 1) + rest);
    ToBitsAt(x, |Zeros(k + 1) + rest|, k);
  }

  /** Adding 2^k to a value whose bits are k zeros, a zero, then rest turns
      that zero into a one. */
  lemma SetLowestAbove(k: nat, rest: seq<bool>)
    ensures FromBits(Zeros(k) + ([false] + rest)) + Pow2(k) == FromBits(Zeros(k) + ([true] + rest))
  {
    assert ([false] + rest)[0] == false && ([false] + rest)[1..] == rest;
    assert ([true] + rest)[0] == true && ([true] + rest)[1..] == rest;
    FromBitsZerosPrefix(k, [false] + rest);
    FromBitsZerosPrefix(k, [true] + rest);
    MulAddOne(Pow2(k), FromBits(rest));
  }

  lemma MulZero(p: nat, f: nat)
    requires f == 0
    ensures p * f == 0
  {
  }

  lemma MulAddOne(p: nat, f: nat)
    ensures p * (2 * f) + p == p * (1 + 2 * f)
  {
  }

  /** Bit i of the scrambled number is bit blockSize-1-i of n inside the block
      and bit i of n above it. */
  lemma ScrambledBits(e: IDEncoder, n: U64, i: nat)
    requires e.blockSize <= 64 && i < 64
    ensures Bit(Scrambled(e, n), i) == if i < e.blockSize then Bit(n, e.blockSize - 1 - i) else Bit(n, i)
  {
    var bs := ToBits(n, 64);
    var b := e.blockSize;
    var s := Reverse(bs[..b]) + bs[b..];
    ToBitsFromBits(s);
    ToBitsAt(Scrambled(e, n), 64, i);
    if i < b {
      ReverseAt(bs[..b], i);
      ToBitsAt(n, 64, b - 1 - i);
    } else {
      ToBitsAt(n, 64, i);
    }
  }

  /** Scrambling is its own inverse, which is what lets Decode undo Encode. */
  lemma ScrambleInvolution(e: IDEncoder, n: U64)
    requires e.blockSize <= 64
    ensures Scrambled(e, Scrambled(e, n)) == n
  {
    var bs := ToBits(n, 64);
    var b := e.blockSize;
    var s := Reverse(bs[..b]) + bs[b..];
    ToBitsFromBits(s);
    assert ToBits(Scrambled(e, n), 64) == s;
    assert s[..b] == Reverse(bs[..b]) && s[b..] == bs[b..];
    ReverseReverse(bs[..b]);
    assert bs[..b] + bs[b..] == bs;
    Pow2Is2To64();
    FromBitsToBits(n, 64);
  }

  /** A block size of 0 leaves every number as it is. */
  lemma ScrambleIdentityAtZero(e: IDEncoder, n: U64)
    requires e.blockSize == 0
    ensures Scrambled(e, n) == n
  {
    var bs := ToBits(n, 64);
    assert Reverse(bs[..0]) + bs[0..] == bs;
    Pow2Is2To64();
    FromBitsToBits(n, 64);
  }

  /** A number that fits in the block scrambles to one that fits too. */
  lemma ScrambledInBlock(e: IDEncoder, n: U64)
    requires e.blockSize <= 64 && n < Pow2(e.blockSize)
    ensures Scrambled(e, n) < Pow2(e.blockSize)
  {
    var bs := ToBits(n, 64);
    var b := e.blockSize;
    var low, high := Reverse(bs[..b]), bs[b..];
    assert Scrambled(e, n) == FromBits(low + high);
    ToBitsDrop(n, 64, b);
    ShrBound(n, b, b);
    assert high == ToBits(0, 64 - b);
    FromBitsToBits(0, 64 - b);
    FromBitsAppend(low, high);
    MulZero(Pow2(|low|), FromBits(high));
    FromBitsBound(low);
  }

  /** The bits above the block count at least as much as they do in n. */
  lemma ScrambledAtLeast(e: IDEncoder, n: U64)
    requires e.blockSize <= 64
    ensures Scrambled(e, n) >= Pow2(e.blockSize) * Shr(n, e.blockSize)
  {
    var bs := ToBits(n, 64);
    var b := e.blockSize;
    var low, high := Reverse(bs[..b]), bs[b..];
    assert Scrambled(e, n) == FromBits(low + high);
    Pow2Is2To64();
    ToBitsDrop(n, 64, b);
    ShrBound(n, 64, b);
    FromBitsToBits(Shr(n, b), 64 - b);
    assert FromBits(high) == Shr(n, b);
    FromBitsAppend(low, high);
  }

  // ---------------------------------------------------------------- enbase

  /** The digits of x in the radix of the alphabet, most significant first,
      without leading zero symbols (empty for 0). */
  function Digits(e: IDEncoder, x: nat): (d: seq<Byte>)
    requires x == 0 || |e.alphabet| >= 2
    ensures d == [] <==> x == 0
    ensures forall c :: c in d ==> c in e.alphabet
    decreases x
  {
    if x == 0 then [] else Digits(e, x / |e.alphabet|) + [e.alphabet[x % |e.alphabet|]]
  }

  /** count copies of c. */
  function Repeat(c: Byte, count: nat): (s: seq<Byte>)
  {
    seq(count, _ => c)
  }

  /** The digits of x, left-padded with the zero symbol to minLength symbols;
      a numeral that is already long enough is not padded. */
  function Enbased(e: IDEncoder, x: nat, minLength: nat): (s: seq<Byte>)
    requires |e.alphabet| >= 1 && (x == 0 || |e.alphabet| >= 2)
    ensures |s| >= minLength && |s| >= |Digits(e, x)|
    ensures |Digits(e, x)| <= minLength ==> |s| == minLength
    ensures s[|s| - |Digits(e, x)|..] == Digits(e, x)
    ensures forall i :: 0 <= i < |s| - |Digits(e, x)| ==> s[i] == e.alphabet[0]
    ensures forall c :: c in s ==> c in e.alphabet
  {
    var d := Digits(e, x);
    Repeat(e.alphabet[0], if |d| < minLength then minLength - |d| else 0) + d
  }

  /** `times`: a fresh buffer of n bytes, each set to c. */
  method Times(c: Byte, n: U64) returns (chars: seq<Byte>)
    ensures |chars| == n
    ensures forall i :: 0 <= i < n ==> chars[i] == c
  {
    var buf := new Byte[n];
    var i := 0;
    while i < n
      invariant i <= n
      invariant forall j :: 0 <= j < i ==> buf[j] == c
    {
      buf[i] := c;
      i := i + 1;
    }
    chars := buf[..];
  }

  /** `leftPad`: str preceded by enough pad symbols to reach length. */
  method LeftPad(str: seq<Byte>, length: U64, pad: Byte) returns (s: seq<Byte>)
    requires |str| <= length
    ensures |s| == length
    ensures s[length - |str|..] == str
    ensures forall i :: 0 <= i < length - |str| ==> s[i] == pad
  {
    var prefix := Times(pad, length - |str|);
    s := prefix + str;
  }

  /** `enbase`: peel off the least significant digit until x is 0, putting
      each digit's symbol in front, then pad with the zero symbol. */
  method Enbase(e: IDEncoder, x: U64, minLength: U64) returns (s: seq<Byte>)
    requires |e.alphabet| >= 1 && (x == 0 || |e.alphabet| >= 2)
    requires |Digits(e, x)| <= minLength
    ensures s == Enbased(e, x, minLength)
    ensures |s| == minLength
  {
    var n := |e.alphabet|;
    var chars: seq<Byte> := [];
    var rest: nat := x;
    ghost var d := Digits(e, x);
    assert Digits(e, rest) + chars == d;
    while rest > 0
      invariant rest == 0 || n >= 2
      invariant Digits(e, rest) + chars == d
    {
      var c: int := rest % n;
      var q: int := rest / n;
      EnbaseStep(e, x, rest, q, c, chars);
      rest := q;
      chars := [e.alphabet[c]] + chars;
    }
    EnbaseDone(e, x, minLength, rest, chars);
    s := LeftPad(chars, minLength, e.alphabet[0]);
    EnbasedShape(e, x, minLength, s);
  }

  /** When the enbase loop ends, it has produced all the digits of x. */
  lemma EnbaseDone(e: IDEncoder, x: nat, minLength: nat, rest: nat, chars: seq<Byte>)
    requires rest == 0
    requires x == 0 || |e.alphabet| >= 2
    requires |Digits(e, x)| <= minLength
    requires Digits(e, rest) + chars == Digits(e, x)
    ensures chars == Digits(e, x) && |chars| <= minLength
  {
    assert Digits(e, rest) == [];
  }

  /** One turn of the enbase loop: the quotient is smaller, and the digits
      still to produce followed by those produced are still those of x. */
  lemma EnbaseStep(e: IDEncoder, x: nat, rest: nat, q: int, c: int, chars: seq<Byte>)
    requires rest > 0 && |e.alphabet| >= 2
    requires q == rest / |e.alphabet| && c == rest % |e.alphabet|
    requires Digits(e, rest) + chars == Digits(e, x)
    ensures 0 <= q < rest && 0 <= c < |e.alphabet|
    ensures Digits(e, q) + ([e.alphabet[c]] + chars) == Digits(e, x)
  {
    DivLess(rest, |e.alphabet|);
    LastDigit(e, rest);
  }

  /** One turn of the enbase loop: the last digit of x is the symbol of
      x mod K, and the rest are the digits of x div K, a smaller number. */
  lemma LastDigit(e: IDEncoder, x: nat)
    requires x > 0 && |e.alphabet| >= 2
    ensures x / |e.alphabet| < x
    ensures Digits(e, x) == Digits(e, x / |e.alphabet|) + [e.alphabet[x % |e.alphabet|]]
  {
    DivLess(x, |e.alphabet|);
  }

  lemma DivLess(x: nat, k: nat)
    requires x > 0 && k >= 2
    ensures 0 <= x / k < x && 0 <= x % k < k
  {
  }

  /** A string of minLength symbols that ends in the digits of x and has
      only zero symbols before them is the padded form of x. */
  lemma EnbasedShape(e: IDEncoder, x: nat, minLength: nat, s: seq<Byte>)
    requires |e.alphabet| >= 1 && (x == 0 || |e.alphabet| >= 2)
    requires |Digits(e, x)| <= minLength
    requires |s| == minLength
    requires s[minLength - |Digits(e, x)|..] == Digits(e, x)
    requires forall i :: 0 <= i < minLength - |Digits(e, x)| ==> s[i] == e.alphabet[0]
    ensures s == Enbased(e, x, minLength)
  {
    var d := Digits(e, x);
    assert s == s[..minLength - |d|] + d;
    assert s[..minLength - |d|] == Repeat(e.alphabet[0], minLength - |d|);
  }

  // ---------------------------------------------------------------- debase

  /** `bytes.IndexByte`: the first position of b in a, or -1 when b is absent. */
  function IndexByte(a: seq<Byte>, b: Byte): (r: int)
    ensures -1 <= r < |a|
    ensures r == -1 <==> b !in a
    ensures r >= 0 ==> a[r] == b && b !in a[..r]
  {
    if a == [] then -1
    else if a[0] == b then 0
    else
      var r := IndexByte(a[1..], b);
      if r < 0 then -1 else r + 1
  }

  /** In a duplicate-free alphabet, the symbol at position d is found at d. */
  lemma IndexByteOf(a: seq<Byte>, d: nat)
    requires d < |a|
    ensures Distinct(a) ==> IndexByte(a, a[d]) == d
  {
  }

  /** The value Debase computes, with every step wrapped to 64 bits as Go's
      uint64 arithmetic does; a symbol outside the alphabet adds
      uint64(-1) = 2^64 - 1. */
  function Debased(e: IDEncoder, s: seq<Byte>): U64
  {
    if s == [] then 0
    else
      var acc := (Debased(e, s[..|s| - 1]) * |e.alphabet|) % TWO_64;
      (acc + IndexByte(e.alphabet, s[|s| - 1]) % TWO_64) % TWO_64
  }

  /** The exact value of a numeral over the alphabet, least significant
      symbol last. */
  function Value(e: IDEncoder, s: seq<Byte>): nat
    requires forall c :: c in s ==> c in e.alphabet
  {
    if s == [] then 0
    else
      var p := s[..|s| - 1];
      assert forall c :: c in p ==> c in s;
      var i := IndexByte(e.alphabet, s[|s| - 1]);
      assert i >= 0;
      Value(e, p) * |e.alphabet| + i
  }

  /** `debase`: the left fold result*K + index over the symbols. */
  method Debase(e: IDEncoder, x: seq<Byte>) returns (r: U64)
    ensures r == Debased(e, x)
  {
    var result: U64 := 0;
    var n := |e.alphabet|;
    for i := 0 to |x|
      invariant result == Debased(e, x[..i])
    {
      assert x[..i + 1][..i] == x[..i];
      result := (result * n) % TWO_64;
      result := (result + IndexByte(e.alphabet, x[i]) % TWO_64) % TWO_64;
    }
    assert x[..|x|] == x;
    r := result;
  }

  /** When the exact value fits in 64 bits, no step of Debase wraps. */
  lemma {:induction false} DebasedExact(e: IDEncoder, s: seq<Byte>)
    requires |e.alphabet| >= 1
    requires forall c :: c in s ==> c in e.alphabet
    requires Value(e, s) < TWO_64
    ensures Debased(e, s) == Value(e, s)
  {
    if s != [] {
      var p := s[..|s| - 1];
      assert forall c :: c in p ==> c in s;
      var k := |e.alphabet|;
      var v := Value(e, p);
      var i := IndexByte(e.alphabet, s[|s| - 1]);
      assert i >= 0;
      var vk := v * k;
      assert Value(e, s) == vk + i;
      MulMonotone(v, k);
      DebasedExact(e, p);
      assert Debased(e, s) == (vk % TWO_64 + i % TWO_64) % TWO_64;
      ModSmallSum(vk, i);
    }
  }

  lemma MulMonotone(v: nat, k: nat)
    requires k >= 1
    ensures v <= v * k
  {
  }

  lemma ModSmallSum(a: nat, i: nat)
    requires a + i < TWO_64
    ensures (a % TWO_64 + i % TWO_64) % TWO_64 == a + i
  {
  }

  /** Reading back the digits of x gives x. */
  lemma {:induction false} ValueDigits(e: IDEncoder, x: nat)
    requires |e.alphabet| >= 2 && Distinct(e.alphabet)
    ensures Value(e, Digits(e, x)) == x
    decreases x
  {
    if x > 0 {
      var q, r := SplitLastDigit(e, x);
      ValueDigits(e, q);
      ValueSnoc(e, Digits(e, q), r);
    }
  }

  /** A positive x is q * K + r, with the digits of q followed by the symbol
      of r as its digits. */
  lemma SplitLastDigit(e: IDEncoder, x: nat) returns (q: nat, r: nat)
    requires x > 0 && |e.alphabet| >= 2
    ensures q < x && r < |e.alphabet| && x == q * |e.alphabet| + r
    ensures Digits(e, x) == Digits(e, q) + [e.alphabet[r]]
  {
    var k := |e.alphabet|;
    q, r := x / k, x % k;
    LastDigit(e, x);
    DivMod(x, k);
  }

  /** Appending the symbol at position r multiplies the value by K and adds r. */
  lemma ValueSnoc(e: IDEncoder, p: seq<Byte>, r: nat)
    requires Distinct(e.alphabet) && r < |e.alphabet|
    requires forall c :: c in p ==> c in e.alphabet
    ensures forall c :: c in p + [e.alphabet[r]] ==> c in e.alphabet
    ensures Value(e, p + [e.alphabet[r]]) == Value(e, p) * |e.alphabet| + r
  {
    var s := p + [e.alphabet[r]];
    assert s[..|s| - 1] == p;
    IndexByteOf(e.alphabet, r);
  }

  lemma DivMod(x: nat, k: nat)
    requires k > 0
    ensures x == (x / k) * k + x % k
  {
  }

  /** Leading zero symbols contribute nothing to the value. */
  lemma {:induction false} ValueZeroPrefix(e: IDEncoder, count: nat, s: seq<Byte>)
    requires |e.alphabet| >= 1
    requires forall c :: c in s ==> c in e.alphabet
    ensures forall c :: c in Repeat(e.alphabet[0], count) + s ==> c in e.alphabet
    ensures Value(e, Repeat(e.alphabet[0], count) + s) == Value(e, s)
  {
    var z := Repeat(e.alphabet[0], count);
    if s == [] {
      assert z + s == z;
      ValueRepeatZero(e, count);
    } else {
      var p := s[..|s| - 1];
      assert forall c :: c in p ==> c in s;
      assert (z + s)[..|z + s| - 1] == z + p;
      ValueZeroPrefix(e, count, p);
    }
  }

  lemma {:induction false} ValueRepeatZero(e: IDEncoder, count: nat)
    requires |e.alphabet| >= 1
    ensures forall c :: c in Repeat(e.alphabet[0], count) ==> c in e.alphabet
    ensures Value(e, Repeat(e.alphabet[0], count)) == 0
  {
    if count > 0 {
      assert Repeat(e.alphabet[0], count)[..count - 1] == Repeat(e.alphabet[0], count - 1);
      ValueRepeatZero(e, count - 1);
    }
  }

  /** Debase undoes Enbase, whatever the padding length. */
  lemma DebaseEnbase(e: IDEncoder, x: U64, minLength: nat)
    requires |e.alphabet| >= 2 && Distinct(e.alphabet)
    ensures Debased(e, Enbased(e, x, minLength)) == x
  {
    var d := Digits(e, x);
    ValueZeroPrefix(e, if |d| < minLength then minLength - |d| else 0, d);
    ValueDigits(e, x);
    DebasedExact(e, Enbased(e, x, minLength));
  }

  // ---------------------------------------------------------------- encode / decode

  /** Go's `string(b)` for a byte b: the UTF-8 encoding of the code point b,
      one byte below 0x80 and two bytes from 0x80 on. */
  function RuneBytes(b: Byte): (r: seq<Byte>)
    ensures IsAscii(b) ==> r == [b]
    ensures !IsAscii(b) ==> |r| == 2 && 0xC2 <= r[0] <= 0xC3 && 0x80 <= r[1] < 0xC0
    ensures !IsAscii(b) ==> ((r[0] & 0x1F) as int) * 64 + (r[1] & 0x3F) as int == b as int
  {
    if b < 0x80 then [b] else [0xC0 | (b >> 6), 0x80 | (b & 0x3F)]
  }

  /** What encoding n needs: a checksum index inside the alphabet (the
      lookup panics otherwise), shifts of at most 64, and a radix that lets
      enbase stop. */
  predicate Encodable(e: IDEncoder, n: U64)
  {
    0 < e.checksum && n % e.checksum < |e.alphabet| && e.blockSize <= 64
    && (Scrambled(e, n) == 0 || |e.alphabet| >= 2)
  }

  /** What the source's Encode needs besides: no more digits than minLength,
      since leftPad panics otherwise. */
  predicate CanEncode(e: IDEncoder, n: U64, minLength: nat)
  {
    Encodable(e, n) && |Digits(e, Scrambled(e, n))| <= minLength
  }

  /** The intended encoding: the checksum symbol of n as one byte, then the
      padded digits of the scrambled n. */
  function Encoded(e: IDEncoder, n: U64, minLength: nat): (s: seq<Byte>)
    requires Encodable(e, n)
    ensures |s| >= minLength + 1
    ensures |Digits(e, Scrambled(e, n))| <= minLength ==> |s| == minLength + 1
    ensures s[0] == Checksum(e, n)
    ensures forall c :: c in s ==> c in e.alphabet
  {
    var d := Digits(e, Scrambled(e, n));
    var body := Enbased(e, Scrambled(e, n), minLength);
    assert forall c :: c in body ==> c in e.alphabet by {
      ValueZeroPrefix(e, if |d| < minLength then minLength - |d| else 0, d);
    }
    [Checksum(e, n)] + body
  }

  /** What the source's Encode returns: the checksum symbol converted to a
      string as a rune, then the padded digits of the scrambled n. */
  function EncodedAsWritten(e: IDEncoder, n: U64, minLength: nat): (s: seq<Byte>)
    requires CanEncode(e, n, minLength)
    ensures IsAscii(Checksum(e, n)) ==> s == Encoded(e, n, minLength)
    ensures !IsAscii(Checksum(e, n)) ==> |s| == minLength + 2
  {
    RuneBytes(Checksum(e, n)) + Enbased(e, Scrambled(e, n), minLength)
  }

  /** `Encode`: the checksum of n, then n scrambled and written in the
      alphabet's radix; the flag is always true. */
  method Encode(e: IDEncoder, n: U64, minLength: U64) returns (encoded: seq<Byte>, ok: bool)
    requires CanEncode(e, n, minLength)
    ensures ok
    ensures encoded == EncodedAsWritten(e, n, minLength)
    ensures IsAscii(Checksum(e, n)) ==> encoded == Encoded(e, n, minLength)
  {
    var scrambled := Scramble(e, n);
    var body := Enbase(e, scrambled, minLength);
    encoded := RuneBytes(Checksum(e, n)) + body;
    ok := true;
  }

  /** What Decode returns for s: the scrambled value of the tail read back,
      and whether the head is its checksum symbol. */
  function Decoded(e: IDEncoder, s: seq<Byte>): (U64, bool)
    requires Valid(e) && |s| >= 1
  {
    var value := Scrambled(e, Debased(e, s[1..]));
    (value, Checksum(e, value) == s[0])
  }

  /** `Decode`: read the tail back, unscramble it, and compare the head with
      the checksum symbol of the result. */
  method Decode(e: IDEncoder, s: seq<Byte>) returns (decoded: U64, ok: bool)
    requires Valid(e) && |s| >= 1
    ensures (decoded, ok) == Decoded(e, s)
    ensures ok <==> s[0] == Checksum(e, decoded)
  {
    var scrambled := Debase(e, s[1..]);
    decoded := Scramble(e, scrambled);
    ok := true;
    if Checksum(e, decoded) != s[0] {
      ok := false;
    }
  }

  // ---------------------------------------------------------------- properties

  /** Decoding an encoding gives back the number, with the flag set. */
  lemma DecodeEncode(e: IDEncoder, n: U64, minLength: nat)
    requires RoundTrips(e)
    ensures Decoded(e, Encoded(e, n, minLength)) == (n, true)
  {
    var s := Encoded(e, n, minLength);
    assert s[1..] == Enbased(e, Scrambled(e, n), minLength);
    DebaseEnbase(e, Scrambled(e, n), minLength);
    ScrambleInvolution(e, n);
  }

  /** Under one configuration and padding length, distinct numbers never
      share an encoding: neither the intended one nor the source's bytes,
      whose first byte tells a one-byte head from a two-byte one. */
  lemma EncodeInjective(e: IDEncoder, n1: U64, n2: U64, minLength: nat)
    requires RoundTrips(e)
    ensures Encoded(e, n1, minLength) == Encoded(e, n2, minLength) ==> n1 == n2
    ensures CanEncode(e, n1, minLength) && CanEncode(e, n2, minLength) ==>
      (EncodedAsWritten(e, n1, minLength) == EncodedAsWritten(e, n2, minLength) ==> n1 == n2)
  {
    DecodeEncode(e, n1, minLength);
    DecodeEncode(e, n2, minLength);
    if CanEncode(e, n1, minLength) && CanEncode(e, n2, minLength)
      && EncodedAsWritten(e, n1, minLength) == EncodedAsWritten(e, n2, minLength)
    {
      var h1 := RuneBytes(Checksum(e, n1));
      var h2 := RuneBytes(Checksum(e, n2));
      var s := EncodedAsWritten(e, n1, minLength);
      assert h1[0] == s[0] == h2[0];
      assert |h1| == |h2|;
      assert s[|h1|..] == Enbased(e, Scrambled(e, n1), minLength);
      assert s[|h2|..] == Enbased(e, Scrambled(e, n2), minLength);
      DebaseEnbase(e, Scrambled(e, n1), minLength);
      DebaseEnbase(e, Scrambled(e, n2), minLength);
      ScrambleInvolution(e, n1);
      ScrambleInvolution(e, n2);
    }
  }

  /** Replacing the checksum symbol of an encoding with any other symbol
      still decodes the same number but clears the flag. */
  lemma ChecksumDetectsHeadChange(e: IDEncoder, n: U64, minLength: nat, c: Byte)
    requires RoundTrips(e)
    requires c != Checksum(e, n)
    ensures Decoded(e, [c] + Encoded(e, n, minLength)[1..]) == (n, false)
  {
    var s := Encoded(e, n, minLength);
    DecodeEncode(e, n, minLength);
    assert ([c] + s[1..])[1..] == s[1..];
  }

  /** The package's default configuration. */
  const Default := IDEncoder(DefaultAlphabet, DefaultBlockSize, DefaultChecksum)

  function Power(k: nat, m: nat): nat
  {
    if m == 0 then 1 else k * Power(k, m - 1)
  }

  /** A number below K^m has at most m digits. */
  lemma {:induction false} DigitsLength(e: IDEncoder, x: nat, m: nat)
    requires |e.alphabet| >= 2 && x < Power(|e.alphabet|, m)
    ensures |Digits(e, x)| <= m
    decreases x
  {
    if x > 0 {
      var q := DropDigitBelow(e, x, m);
      DigitsLength(e, q, m - 1);
    }
  }

  /** Dropping the last digit of a positive x below K^m leaves a number
      below K^(m-1). */
  lemma DropDigitBelow(e: IDEncoder, x: nat, m: nat) returns (q: nat)
    requires |e.alphabet| >= 2 && 0 < x < Power(|e.alphabet|, m)
    ensures m > 0 && q < x && q < Power(|e.alphabet|, m - 1)
    ensures |Digits(e, x)| == |Digits(e, q)| + 1
  {
    var k := |e.alphabet|;
    assert m > 0;
    var p := Power(k, m - 1);
    assert Power(k, m) == k * p;
    DivBelow(x, k, p);
    q := x / k;
    LastDigit(e, x);
  }

  /** A number of at least K^m has more than m digits. */
  lemma {:induction false} DigitsLengthLower(e: IDEncoder, x: nat, m: nat)
    requires |e.alphabet| >= 2 && x >= Power(|e.alphabet|, m)
    ensures |Digits(e, x)| > m
    decreases m
  {
    PowerPositive(|e.alphabet|, m);
    if m > 0 {
      var q := DropDigitAtLeast(e, x, m);
      DigitsLengthLower(e, q, m - 1);
    }
  }

  /** Dropping the last digit of an x of at least K^m, m > 0, leaves a
      number of at least K^(m-1). */
  lemma DropDigitAtLeast(e: IDEncoder, x: nat, m: nat) returns (q: nat)
    requires |e.alphabet| >= 2 && m > 0 && x >= Power(|e.alphabet|, m) && x > 0
    ensures q >= Power(|e.alphabet|, m - 1)
    ensures |Digits(e, x)| == |Digits(e, q)| + 1
  {
    var k := |e.alphabet|;
    var p := Power(k, m - 1);
    assert Power(k, m) == k * p;
    DivAtLeast(x, k, p);
    q := x / k;
    LastDigit(e, x);
  }

  lemma {:induction false} PowerPositive(k: nat, m: nat)
    requires k >= 1
    ensures Power(k, m) >= 1
  {
    if m > 0 {
      PowerPositive(k, m - 1);
      MulMonotone(Power(k, m - 1), k);
    }
  }

  lemma DivAtLeast(x: nat, k: nat, p: nat)
    requires k > 0 && x >= k * p
    ensures x / k >= p
  {
    DivMod(x, k);
    if x / k < p {
      MulMonotone2(x / k + 1, p, k);
    }
  }

  lemma DivBelow(x: nat, k: nat, p: nat)
    requires k > 0 && x < k * p
    ensures x / k < p
  {
    DivMod(x, k);
    if x / k >= p {
      MulMonotone2(p, x / k, k);
    }
  }

  lemma MulMonotone2(a: nat, b: nat, k: nat)
    requires a <= b
    ensures k * a <= b * k
  {
  }

  /** The position of b in the default alphabet, symbol by symbol (-1 when
      b is not in it). On the alphabet's symbols it is the position IndexByte
      finds (DefaultPositionIsIndex); the table lets the solver check the 31 symbols
      one at a time instead of unfolding IndexByte 31 levels deep for each. */
  function DefaultPosition(b: Byte): int
  {
    match b
    case 0x33 => 0
    case 0x66 => 1
    case 0x71 => 2
    case 0x34 => 3
    case 0x72 => 4
    case 0x76 => 5
    case 0x35 => 6
    case 0x7a => 7
    case 0x37 => 8
    case 0x68 => 9
    case 0x73 => 10
    case 0x64 => 11
    case 0x61 => 12
    case 0x6d => 13
    case 0x6e => 14
    case 0x38 => 15
    case 0x62 => 16
    case 0x70 => 17
    case 0x79 => 18
    case 0x67 => 19
    case 0x77 => 20
    case 0x39 => 21
    case 0x36 => 22
    case 0x6a => 23
    case 0x32 => 24
    case 0x63 => 25
    case 0x65 => 26
    case 0x74 => 27
    case 0x78 => 28
    case 0x75 => 29
    case 0x6b => 30
    case _ => -1
  }

  /** The default configuration has what the round trip needs, and its
      symbols are ASCII, so Encode's head is one byte. */
  lemma DefaultRoundTrips()
    ensures RoundTrips(Default)
    ensures forall i :: 0 <= i < |DefaultAlphabet| ==> IsAscii(DefaultAlphabet[i])
  {
    DefaultDistinct();
    forall i | 0 <= i < |DefaultAlphabet|
      ensures IsAscii(DefaultAlphabet[i])
    {
      PositionedIsAscii(DefaultAlphabet[i]);
    }
  }

  lemma PositionedIsAscii(b: Byte)
    requires DefaultPosition(b) >= 0
    ensures IsAscii(b)
  {
  }

  lemma DefaultDistinct()
    ensures Distinct(DefaultAlphabet)
    ensures forall i :: 0 <= i < |DefaultAlphabet| ==> DefaultPosition(DefaultAlphabet[i]) == i
  {
    assert DefaultPosition(DefaultAlphabet[0]) == 0;
    assert DefaultPosition(DefaultAlphabet[1]) == 1;
    assert DefaultPosition(DefaultAlphabet[2]) == 2;
    assert DefaultPosition(DefaultAlphabet[3]) == 3;
    assert DefaultPosition(DefaultAlphabet[4]) == 4;
    assert DefaultPosition(DefaultAlphabet[5]) == 5;
    assert DefaultPosition(DefaultAlphabet[6]) == 6;
    assert DefaultPosition(DefaultAlphabet[7]) == 7;
    assert DefaultPosition(DefaultAlphabet[8]) == 8;
    assert DefaultPosition(DefaultAlphabet[9]) == 9;
    assert DefaultPosition(DefaultAlphabet[10]) == 10;
    assert DefaultPosition(DefaultAlphabet[11]) == 11;
    assert DefaultPosition(DefaultAlphabet[12]) == 12;
    assert DefaultPosition(DefaultAlphabet[13]) == 13;
    assert DefaultPosition(DefaultAlphabet[14]) == 14;
    assert DefaultPosition(DefaultAlphabet[15]) == 15;
    assert DefaultPosition(DefaultAlphabet[16]) == 16;
    assert DefaultPosition(DefaultAlphabet[17]) == 17;
    assert DefaultPosition(DefaultAlphabet[18]) == 18;
    assert DefaultPosition(DefaultAlphabet[19]) == 19;
    assert DefaultPosition(DefaultAlphabet[20]) == 20;
    assert DefaultPosition(DefaultAlphabet[21]) == 21;
    assert DefaultPosition(DefaultAlphabet[22]) == 22;
    assert DefaultPosition(DefaultAlphabet[23]) == 23;
    assert DefaultPosition(DefaultAlphabet[24]) == 24;
    assert DefaultPosition(DefaultAlphabet[25]) == 25;
    assert DefaultPosition(DefaultAlphabet[26]) == 26;
    assert DefaultPosition(DefaultAlphabet[27]) == 27;
    assert DefaultPosition(DefaultAlphabet[28]) == 28;
    assert DefaultPosition(DefaultAlphabet[29]) == 29;
    assert DefaultPosition(DefaultAlphabet[30]) == 30;
    forall i | 0 <= i < |DefaultAlphabet|
      ensures DefaultPosition(DefaultAlphabet[i]) == i
    {
      assert i == 0 || i == 1 || i == 2 || i == 3 || i == 4 || i == 5 || i == 6 || i == 7
        || i == 8 || i == 9 || i == 10 || i == 11 || i == 12 || i == 13 || i == 14 || i == 15
        || i == 16 || i == 17 || i == 18 || i == 19 || i == 20 || i == 21 || i == 22 || i == 23
        || i == 24 || i == 25 || i == 26 || i == 27 || i == 28 || i == 29 || i == 30;
    }
  }

  /** On the default symbols, the position table is the position IndexByte finds. */
  lemma DefaultPositionIsIndex(i: nat)
    requires i < |DefaultAlphabet|
    ensures IndexByte(DefaultAlphabet, DefaultAlphabet[i]) == DefaultPosition(DefaultAlphabet[i])
  {
    DefaultDistinct();
    IndexByteOf(DefaultAlphabet, i);
  }

  /** Under the defaults, every number below 2^24 encodes into exactly six
      symbols (checksum and five digits) and decodes back with the flag set. */
  lemma DefaultRoundTrip(n: U64)
    requires n < Pow2(24)
    ensures |Digits(Default, Scrambled(Default, n))| <= MinLength
    ensures |Encoded(Default, n, MinLength)| == 6
    ensures EncodedAsWritten(Default, n, MinLength) == Encoded(Default, n, MinLength)
    ensures Decoded(Default, Encoded(Default, n, MinLength)) == (n, true)
  {
    DefaultRoundTrips();
    ScrambledInBlock(Default, n);
    Pow2Add(2, 2);
    Pow2Add(4, 4);
    Pow2Add(8, 8);
    Pow2Add(16, 8);
    assert Power(31, 5) == 28629151;
    DigitsLength(Default, Scrambled(Default, n), 5);
    DecodeEncode(Default, n, MinLength);
  }

  /** Under the defaults, every n from 2^25 on scrambles to a number of more
      than MinLength digits, so the source's Encode cannot pad it: leftPad
      subtracts the digit count from MinLength in uint64, which wraps, and
      asks for a buffer of that size. The intended encoding is simply
      longer, and it still decodes back. */
  lemma DefaultLongNumbersOverflowPadding(n: U64)
    requires Pow2(25) <= n
    ensures |Digits(Default, Scrambled(Default, n))| > MinLength
    ensures !CanEncode(Default, n, MinLength)
    ensures |Encoded(Default, n, MinLength)| > 6
    ensures Decoded(Default, Encoded(Default, n, MinLength)) == (n, true)
  {
    DefaultRoundTrips();
    ShrLower(n, 24, 2);
    ScrambledAtLeast(Default, n);
    Pow2Add(2, 2);
    Pow2Add(4, 4);
    Pow2Add(8, 8);
    Pow2Add(16, 8);
    assert Pow2(25) == 33554432;
    assert Power(31, 5) == 28629151;
    DigitsLengthLower(Default, Scrambled(Default, n), 5);
    DecodeEncode(Default, n, MinLength);
  }

  /** A configuration whose first symbol is 0xE9, outside ASCII. */
  const NonAsciiExample := IDEncoder([0xE9, 0x61], 0, 1)

  /** A checksum symbol from 0x80 on breaks the round trip of the source's
      Encode: here the symbol 0xE9 is written as the two bytes 0xC3 0xA9,
      Decode takes 0xC3 as the checksum and reads 0xA9 as a digit, which the
      alphabet does not hold. */
  lemma NonAsciiChecksumBreaksRoundTrip()
    ensures Scrambled(NonAsciiExample, 0) == 0
    ensures EncodedAsWritten(NonAsciiExample, 0, 0) == [0xC3, 0xA9]
    ensures Decoded(NonAsciiExample, [0xC3, 0xA9]) == (TWO_64 - 1, false)
  {
    var e := NonAsciiExample;
    ScrambleIdentityAtZero(e, 0);
    ScrambleIdentityAtZero(e, TWO_64 - 1);
    assert Enbased(e, 0, 0) == [];
    assert [0xC3, 0xA9][1..] == [0xA9];
    assert [0xA9][..0] == [];
    assert IndexByte(e.alphabet, 0xA9) == -1;
    assert Debased(e, [0xA9]) == TWO_64 - 1;
  }
}
