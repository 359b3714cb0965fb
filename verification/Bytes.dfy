/** Byte strings, big-endian integer fields and bit masks, as `struct` and Python's `&` define them. */
module Bytes {

  datatype Option<+T> = None | Some(value: T)

  /** The outcome of a validator: the value it returns, or the exception it raises. */
  datatype Result<+T> = Ok(value: T) | Rejected

  type byte = b: int | 0 <= b < 256
  type bytes = seq<byte>
  type u16 = n: int | 0 <= n < 0x1_0000
  type u32 = n: int | 0 <= n < 0x1_0000_0000

  const TWO_32: nat := 0x1_0000_0000
  const TWO_64: nat := 0x1_0000_0000_0000_0000

  function U16(s: bytes, at: nat): u16
    requires at + 2 <= |s|
  {
    (s[at] as int) * 0x100 + s[at + 1]
  }

  function U32(s: bytes, at: nat): u32
    requires at + 4 <= |s|
  {
    (s[at] as int) * 0x100_0000 + (s[at + 1] as int) * 0x1_0000 + (s[at + 2] as int) * 0x100 + s[at + 3]
  }

  function U64(s: bytes, at: nat): nat
    requires at + 8 <= |s|
  {
    U32(s, at) * TWO_32 + U32(s, at + 4)
  }

  function EncodeU16(n: u16): (s: bytes)
    ensures |s| == 2
  {
    [n / 0x100, n % 0x100]
  }

  function EncodeU32(n: u32): (s: bytes)
    ensures |s| == 4
  {
    [n / 0x100_0000, n / 0x1_0000 % 0x100, n / 0x100 % 0x100, n % 0x100]
  }

  function EncodeU64(n: nat): (s: bytes)
    requires n < TWO_64
    ensures |s| == 8
  {
    EncodeU32(n / TWO_32) + EncodeU32(n % TWO_32)
  }

  /** A field that holds the four bytes of `n` reads back as `n`. */
  lemma DecodeEncodeU32(n: u32, s: bytes, at: nat)
    requires at + 4 <= |s|
    requires s[at..at + 4] == EncodeU32(n)
    ensures U32(s, at) == n
  {
    var field := s[at..at + 4];
    assert s[at] == field[0] && s[at + 1] == field[1] && s[at + 2] == field[2] && s[at + 3] == field[3];
    var a := n / 0x100;
    var b := a / 0x100;
    assert n / 0x1_0000 == b;
    assert n / 0x100_0000 == b / 0x100;
  }

  lemma ByteDigits(n: nat, a: nat, b: nat, c: nat, d: nat)
    requires b < 0x100 && c < 0x100 && d < 0x100
    requires n == a * 0x100_0000 + b * 0x1_0000 + c * 0x100 + d
    ensures n / 0x100_0000 == a && n / 0x1_0000 == a * 0x100 + b && n / 0x100 == a * 0x1_0000 + b * 0x100 + c
    ensures n / 0x1_0000 % 0x100 == b && n / 0x100 % 0x100 == c && n % 0x100 == d
  {
  }

  /** Four bytes are the field of the number they read as. */
  lemma EncodeDecodeU32(s: bytes, at: nat)
    requires at + 4 <= |s|
    ensures s[at..at + 4] == EncodeU32(U32(s, at))
  {
    ByteDigits(U32(s, at), s[at], s[at + 1], s[at + 2], s[at + 3]);
    hide U32;
  }

  lemma EncodeDecodeU16(s: bytes, at: nat)
    requires at + 2 <= |s|
    ensures s[at..at + 2] == EncodeU16(U16(s, at))
  {
    assert U16(s, at) / 0x100 == s[at] && U16(s, at) % 0x100 == s[at + 1];
  }

  /** A field that holds the eight bytes of `n` reads back as `n`, high word first. */
  lemma DecodeEncodeU64(n: nat, s: bytes, at: nat)
    requires n < TWO_64 && at + 8 <= |s|
    requires s[at..at + 8] == EncodeU64(n)
    ensures U32(s, at) * TWO_32 + U32(s, at + 4) == n == U64(s, at)
  {
    assert s[at..at + 4] == s[at..at + 8][..4] && s[at + 4..at + 8] == s[at..at + 8][4..];
    DecodeEncodeU32(n / TWO_32, s, at);
    DecodeEncodeU32(n % TWO_32, s, at + 4);
  }

  /** The most significant byte is stored first. */
  lemma BigEndian()
    ensures EncodeU16(0x1234) == [0x12, 0x34] && EncodeU32(0x1234_5678) == [0x12, 0x34, 0x56, 0x78]
    ensures EncodeU64(0x1122_3344_5566_7788) == [0x11, 0x22, 0x33, 0x44, 0x55, 0x66, 0x77, 0x88]
  {
  }

  // ----- fields of a longer buffer

  /** The bytes `chunk` stand at `at`. */
  ghost predicate Stands(image: bytes, at: nat, chunk: bytes) {
    at + |chunk| <= |image| && image[at..at + |chunk|] == chunk
  }

  lemma ReadWord(image: bytes, at: nat, chunk: bytes, j: nat, value: u32)
    requires Stands(image, at, chunk) && j + 4 <= |chunk| && chunk[j..j + 4] == EncodeU32(value)
    ensures U32(image, at + j) == value
  {
    hide EncodeU32, U32;
    assert forall p :: 0 <= p < |chunk| ==> chunk[p] == image[at + p];
    assert image[at + j..at + j + 4] == chunk[j..j + 4];
    DecodeEncodeU32(value, image, at + j);
  }

  lemma ReadHalf(image: bytes, at: nat, chunk: bytes, j: nat, value: u16)
    requires Stands(image, at, chunk) && j + 2 <= |chunk| && chunk[j..j + 2] == EncodeU16(value)
    ensures U16(image, at + j) == value
  {
    var field := chunk[j..j + 2];
    assert image[at + j] == image[at..at + |chunk|][j] == field[0];
    assert image[at + j + 1] == image[at..at + |chunk|][j + 1] == field[1];
  }

  // ----- bit masks

  /** `a & b` on non-negative integers. */
  function BitAnd(a: nat, b: nat): (r: nat)
    ensures r <= a && r <= b
  {
    if a == 0 || b == 0 then 0
    else 2 * BitAnd(a / 2, b / 2) + (if a % 2 == 1 && b % 2 == 1 then 1 else 0)
  }

  /** `a & mask` is truthy. */
  predicate AnyBit(a: nat, mask: nat) {
    BitAnd(a, mask) != 0
  }

  /** `(a & mask) == mask`. */
  predicate AllBits(a: nat, mask: nat) {
    BitAnd(a, mask) == mask
  }

  function Pow2(k: nat): (p: nat)
    ensures p > 0
  {
    if k == 0 then 1 else 2 * Pow2(k - 1)
  }

  lemma Pow2Next(k: nat)
    requires k > 0
    ensures Pow2(k) == 2 * Pow2(k - 1)
  {
  }

  /** `a & (2**k - 1)` keeps the low `k` bits. */
  lemma {:induction false} BitAndLowBits(a: nat, k: nat)
    ensures BitAnd(a, Pow2(k) - 1) == a % Pow2(k)
  {
    if k == 0 {
      assert Pow2(0) == 1 && a % 1 == 0;
    } else if a > 0 {
      Pow2Next(k);
      hide Pow2, BitAnd;
      BitAndLowBits(a / 2, k - 1);
      LowBitsStep(a, Pow2(k - 1));
      ModDouble(a, Pow2(k - 1));
    } else {
      QuotientUnique(0, Pow2(k), 0, 0);
    }
  }

  lemma LowBitsStep(a: nat, p: nat)
    requires a > 0 && p > 0
    ensures BitAnd(a, 2 * p - 1) == 2 * BitAnd(a / 2, p - 1) + a % 2
  {
    assert (2 * p - 1) / 2 == p - 1 && (2 * p - 1) % 2 == 1;
  }

  lemma ModDouble(a: nat, p: nat)
    requires p > 0
    ensures a % (2 * p) == 2 * (a / 2 % p) + a % 2
  {
    var q, r := a / 2 / p, a / 2 % p;
    assert a / 2 == p * q + r;
    assert a == 2 * (p * q + r) + a % 2 == (2 * p) * q + (2 * r + a % 2);
    QuotientUnique(a, 2 * p, q, 2 * r + a % 2);
  }

  lemma QuotientUnique(a: int, d: int, q: int, r: int)
    requires 0 < d && 0 <= r < d && a == d * q + r
    ensures a / d == q && a % d == r
  {
    var q' := a / d;
    MultipleGap(d, q - q', a % d - r);
  }

  lemma MultipleGap(d: int, k: int, gap: int)
    requires 0 < d && -d < gap < d && d * k == gap
    ensures k == 0
  {
    if k != 0 {
      NonZeroMultiple(d, k);
    }
  }

  lemma NonZeroMultiple(d: int, k: int)
    requires 0 < d && k != 0
    ensures d * k >= d || d * k <= -d
  {
    if k >= 1 {
      assert d * k >= d * 1;
    } else {
      assert d * k <= d * -1;
    }
  }

  /** Bit `k` of a number. */
  predicate Bit(a: nat, k: nat) {
    a / Pow2(k) % 2 == 1
  }

  lemma BitOfHalf(a: nat, k: nat)
    ensures Bit(a, k + 1) <==> Bit(a / 2, k)
  {
    var p := Pow2(k);
    hide Pow2;
    assert Pow2(k + 1) == 2 * p by { Pow2Next(k + 1); }
    var q, r := a / 2 / p, a / 2 % p;
    assert a == (2 * p) * q + (2 * r + a % 2);
    QuotientUnique(a, 2 * p, q, 2 * r + a % 2);
  }

  /** `a & b` has the bits that both have. */
  lemma {:induction false} BitAndBits(a: nat, b: nat, k: nat)
    ensures Bit(BitAnd(a, b), k) <==> Bit(a, k) && Bit(b, k)
    decreases k
  {
    hide *;
    if a == 0 || b == 0 {
      NoBits(k);
      BitAndZero(a, b);
    } else {
      BitAndHalves(a, b);
      if k == 0 {
        LowBit(a);
        LowBit(b);
        LowBit(BitAnd(a, b));
      } else {
        BitOfHalf(a, k - 1);
        BitOfHalf(b, k - 1);
        BitOfHalf(BitAnd(a, b), k - 1);
        BitAndBits(a / 2, b / 2, k - 1);
      }
    }
  }

  lemma BitAndZero(a: nat, b: nat)
    requires a == 0 || b == 0
    ensures BitAnd(a, b) == 0
  {
  }

  lemma LowBit(a: nat)
    ensures Bit(a, 0) <==> a % 2 == 1
  {
    assert Pow2(0) == 1;
  }

  lemma NoBits(k: nat)
    ensures !Bit(0, k)
  {
    QuotientUnique(0, Pow2(k), 0, 0);
  }

  /** A one-bit mask tests its bit. */
  lemma {:induction false} SingleBit(a: nat, k: nat)
    ensures AnyBit(a, Pow2(k)) <==> Bit(a, k)
  {
    if a == 0 {
      NoBits(k);
    } else if k == 0 {
      assert Pow2(0) == 1;
    } else {
      Pow2Next(k);
      BitAndHalves(a, Pow2(k));
      BitOfHalf(a, k - 1);
      SingleBit(a / 2, k - 1);
    }
  }

  /** What the flag masks of the formats test, in arithmetic. */
  lemma FlagBits(a: nat)
    ensures AnyBit(a, 1) <==> a % 2 == 1
    ensures AnyBit(a, 2) <==> a / 2 % 2 == 1
    ensures AnyBit(a, 4) <==> a / 4 % 2 == 1
    ensures AnyBit(a, 0x0800_0000) <==> a / 0x0800_0000 % 2 == 1
  {
    Pow27();
    assert Pow2(0) == 1 && Pow2(1) == 2 && Pow2(2) == 4;
    hide Pow2, AnyBit;
    SingleBit(a, 0);
    SingleBit(a, 1);
    SingleBit(a, 2);
    SingleBit(a, 27);
  }

  lemma Pow27()
    ensures Pow2(27) == 0x0800_0000
  {
    assert Pow2(9) == 512;
    Pow2Sum(9, 9);
    Pow2Sum(18, 9);
  }

  lemma {:induction false} Pow2Sum(j: nat, k: nat)
    ensures Pow2(j + k) == Pow2(j) * Pow2(k)
  {
    if k > 0 {
      Pow2Sum(j, k - 1);
    }
  }

  ghost predicate IsPow2(a: nat) {
    exists k: nat :: Pow2(k) == a
  }

  lemma Pow2Double(b: nat)
    requires b > 0
    ensures IsPow2(2 * b) <==> IsPow2(b)
  {
    if k: nat :| Pow2(k) == b {
      assert Pow2(k + 1) == 2 * b;
    }
    if k: nat :| Pow2(k) == 2 * b {
      assert k > 0 && Pow2(k - 1) == b;
    }
  }

  lemma Pow2Odd(a: nat)
    requires a > 1 && a % 2 == 1
    ensures !IsPow2(a)
  {
    forall k: nat
      ensures Pow2(k) != a
    {
      if k > 0 {
        assert Pow2(k) == 2 * Pow2(k - 1);
      }
    }
  }

  lemma BitAndHalves(a: nat, b: nat)
    requires a > 0 && b > 0
    ensures BitAnd(a, b) == 2 * BitAnd(a / 2, b / 2) + if a % 2 == 1 && b % 2 == 1 then 1 else 0
  {
  }

  /** `a & (a - 1)` is zero exactly for powers of two. */
  lemma {:induction false} PowerOfTwoTest(a: nat)
    requires a > 0
    ensures BitAnd(a, a - 1) == 0 <==> IsPow2(a)
  {
    if a == 1 {
      assert Pow2(0) == 1;
    } else {
      BitAndHalves(a, a - 1);
      hide IsPow2, BitAnd;
      if a % 2 == 0 {
        assert a == 2 * (a / 2) && (a - 1) / 2 == a / 2 - 1;
        PowerOfTwoTest(a / 2);
        Pow2Double(a / 2);
      } else {
        assert (a - 1) / 2 == a / 2;
        BitAndSelf(a / 2);
        Pow2Odd(a);
      }
    }
  }

  lemma {:induction false} BitAndSelf(a: nat)
    ensures BitAnd(a, a) == a
  {
    if a != 0 {
      BitAndSelf(a / 2);
    }
  }

  /** A two-bit mask is present exactly when both of its bits are. */
  lemma AllBitsOfTwo(a: nat)
    ensures AllBits(a, 3) <==> AnyBit(a, 1) && AnyBit(a, 2)
    ensures AllBits(a, 6) <==> AnyBit(a, 2) && AnyBit(a, 4)
    ensures AllBits(a, 2) <==> AnyBit(a, 2)
  {
    var b := a / 2;
    var c := b / 2;
    assert BitAnd(a, 1) == a % 2;
    assert BitAnd(b, 1) == b % 2 && BitAnd(a, 2) == 2 * (b % 2);
    assert BitAnd(c, 1) == c % 2 && BitAnd(b, 2) == 2 * (c % 2) && BitAnd(a, 4) == 4 * (c % 2);
    assert BitAnd(a, 3) == 2 * (b % 2) + a % 2;
    assert BitAnd(b, 3) == 2 * (c % 2) + b % 2;
    assert BitAnd(a, 6) == 2 * BitAnd(b, 3);
  }
}
