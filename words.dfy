/** Machine words as the encoder sees them: Go's `uint64` and `byte`, the bit
    operations the scrambler uses, and a little-endian bit-string view of a
    number that the scrambler's specification is written in. */
module Words {

  /** 2^64, the modulus of Go's `uint64` arithmetic. */
  const TWO_64: nat := 0x1_0000_0000_0000_0000

  /** Go's `uint64`. */
  type U64 = x: nat | x < TWO_64

  /** Go's `byte`. */
  type Byte = bv8

  function Pow2(k: nat): (p: nat)
    ensures p >= 1
  {
    if k == 0 then 1 else 2 * Pow2(k - 1)
  }

  lemma {:induction false} Pow2Add(a: nat, b: nat)
    ensures Pow2(a + b) == Pow2(a) * Pow2(b)
  {
    if a > 0 {
      Pow2Add(a - 1, b);
      assert Pow2(a + b) == 2 * Pow2(a - 1 + b);
    }
  }

  lemma Pow2Is2To64()
    ensures Pow2(64) == TWO_64
  {
    assert Pow2(2) == 4;
    Pow2Add(2, 2);
    Pow2Add(4, 4);
    Pow2Add(8, 8);
    Pow2Add(16, 16);
    Pow2Add(32, 32);
  }

  /** `n >> k`: the number shifted right by k bits. */
  function Shr(n: nat, k: nat): nat
  {
    if k == 0 then n else Shr(n / 2, k - 1)
  }

  /** `n & (1 << k) != 0`: bit k of n is set. */
  predicate Bit(n: nat, k: nat)
  {
    Shr(n, k) % 2 == 1
  }

  /** `n | (1 << k)`: n with bit k set. */
  function SetBit(n: nat, k: nat): nat
  {
    if Bit(n, k) then n else n + Pow2(k)
  }

  /** Setting bit k changes bit k and no other. */
  lemma {:induction false} SetBitBits(n: nat, k: nat, j: nat)
    ensures Bit(SetBit(n, k), j) <==> j == k || Bit(n, j)
  {
    if !Bit(n, k) {
      AddClearBit(n, k, j);
    }
  }

  lemma {:induction false} AddClearBit(n: nat, k: nat, j: nat)
    requires !Bit(n, k)
    ensures Bit(n + Pow2(k), j) <==> j == k || Bit(n, j)
  {
    if k == 0 {
      if j > 0 {
        assert (n + 1) / 2 == n / 2;
        assert Shr(n + 1, j) == Shr(n / 2, j - 1);
      }
    } else if j == 0 {
      assert (n + Pow2(k)) % 2 == n % 2;
    } else {
      assert (n + Pow2(k)) / 2 == n / 2 + Pow2(k - 1);
      AddClearBit(n / 2, k - 1, j - 1);
    }
  }

  /** The lowest w bits of n, least significant first. */
  function ToBits(n: nat, w: nat): (bs: seq<bool>)
    ensures |bs| == w
  {
    if w == 0 then [] else [n % 2 == 1] + ToBits(n / 2, w - 1)
  }

  /** The number whose bits, least significant first, are bs. */
  function FromBits(bs: seq<bool>): nat
  {
    if bs == [] then 0 else (if bs[0] then 1 else 0) + 2 * FromBits(bs[1..])
  }

  function Zeros(k: nat): (z: seq<bool>)
    ensures |z| == k
  {
    seq(k, _ => false)
  }

  /** The elements of s in the opposite order. */
  function Reverse<T>(s: seq<T>): (r: seq<T>)
    ensures |r| == |s|
  {
    if s == [] then [] else [s[|s| - 1]] + Reverse(s[..|s| - 1])
  }

  lemma {:induction false} ToBitsAt(n: nat, w: nat, i: nat)
    requires i < w
    ensures ToBits(n, w)[i] == Bit(n, i)
  {
    if i > 0 {
      ToBitsAt(n / 2, w - 1, i - 1);
    }
  }

  lemma {:induction false} FromBitsBound(bs: seq<bool>)
    ensures FromBits(bs) < Pow2(|bs|)
  {
    if bs != [] {
      FromBitsBound(bs[1..]);
    }
  }

  /** Reading a bit string as a number and writing it back gives the bit string. */
  lemma {:induction false} ToBitsFromBits(bs: seq<bool>)
    ensures ToBits(FromBits(bs), |bs|) == bs
  {
    if bs != [] {
      ToBitsFromBits(bs[1..]);
      var n := FromBits(bs);
      assert n / 2 == FromBits(bs[1..]);
      assert (n % 2 == 1) == bs[0];
    }
  }

  /** Writing a number of w bits as a bit string and reading it back gives the number. */
  lemma {:induction false} FromBitsToBits(n: nat, w: nat)
    requires n < Pow2(w)
    ensures FromBits(ToBits(n, w)) == n
  {
    if w > 0 {
      FromBitsToBits(n / 2, w - 1);
      assert ToBits(n, w)[1..] == ToBits(n / 2, w - 1);
    }
  }

  /** Low-order zero bits multiply the value of the rest by a power of two. */
  lemma {:induction false} FromBitsZerosPrefix(k: nat, rest: seq<bool>)
    ensures FromBits(Zeros(k) + rest) == Pow2(k) * FromBits(rest)
  {
    if k == 0 {
      assert Zeros(k) + rest == rest;
    } else {
      var z := Zeros(k) + rest;
      assert z[0] == false && z[1..] == Zeros(k - 1) + rest;
      FromBitsZerosPrefix(k - 1, rest);
      assert FromBits(z) == 2 * (Pow2(k - 1) * FromBits(rest));
      DoubleProduct(Pow2(k - 1), FromBits(rest));
    }
  }

  /** The bits of a, then the bits of c: c's value moves up by |a| bits. */
  lemma {:induction false} FromBitsAppend(a: seq<bool>, c: seq<bool>)
    ensures FromBits(a + c) == FromBits(a) + Pow2(|a|) * FromBits(c)
  {
    if a == [] {
      assert a + c == c;
    } else {
      assert (a + c)[0] == a[0] && (a + c)[1..] == a[1..] + c;
      FromBitsAppend(a[1..], c);
      DoubleProduct(Pow2(|a| - 1), FromBits(c));
    }
  }

  lemma DoubleProduct(p: nat, f: nat)
    ensures (2 * p) * f == 2 * (p * f)
  {
  }

  /** Dropping the k lowest bits of n's bit string is shifting n right by k. */
  lemma {:induction false} ToBitsDrop(n: nat, w: nat, k: nat)
    requires k <= w
    ensures ToBits(n, w)[k..] == ToBits(Shr(n, k), w - k)
  {
    if k > 0 {
      ToBitsDrop(n / 2, w - 1, k - 1);
    }
  }

  lemma {:induction false} ShrBound(n: nat, w: nat, k: nat)
    requires n < Pow2(w) && k <= w
    ensures Shr(n, k) < Pow2(w - k)
  {
    if k > 0 {
      ShrBound(n / 2, w - 1, k - 1);
    }
  }

  /** A number of at least m * 2^k keeps at least m after shifting right by k. */
  lemma {:induction false} ShrLower(n: nat, k: nat, m: nat)
    requires n >= m * Pow2(k)
    ensures Shr(n, k) >= m
  {
    if k > 0 {
      var p := Pow2(k - 1);
      assert m * Pow2(k) == 2 * (m * p);
      ShrLower(n / 2, k - 1, m);
    }
  }

  lemma {:induction false} ReverseAt<T>(s: seq<T>, i: nat)
    requires i < |s|
    ensures Reverse(s)[i] == s[|s| - 1 - i]
  {
    if i > 0 {
      ReverseAt(s[..|s| - 1], i - 1);
    }
  }

  /** Reversing twice gives back the sequence. */
  lemma ReverseReverse<T>(s: seq<T>)
    ensures Reverse(Reverse(s)) == s
  {
    forall i | 0 <= i < |s|
      ensures Reverse(Reverse(s))[i] == s[i]
    {
      ReverseAt(Reverse(s), i);
      ReverseAt(s, |s| - 1 - i);
    }
  }
}
