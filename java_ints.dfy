// Java's fixed-width integers and the integer operators the map relies on:
// the `int`/`long` ranges, the narrowing cast `(int)`, the truncating `/`
// and `%` (section 15.17 of the Java Language Specification) and
// `Long.hashCode`, which folds the two 32-bit halves of a `long` together
// with XOR.

module JavaInts {

  const TWO_31: int := 0x8000_0000
  const TWO_32: int := 0x1_0000_0000
  const TWO_64: int := 0x1_0000_0000_0000_0000

  /** Java `long`: 64-bit two's complement. */
  type Long = x: int | -0x8000_0000_0000_0000 <= x < 0x8000_0000_0000_0000

  /** Java `int`: 32-bit two's complement. */
  type Int = x: int | -0x8000_0000 <= x < 0x8000_0000

  function Abs(x: int): nat { if x < 0 then -x else x }

  /**
   * The narrowing conversion `(int) x`, which is also how `int` arithmetic
   * wraps around: keep the low 32 bits and read them as two's complement.
   */
  function ToInt(x: int): (r: Int)
    ensures (x - r) % TWO_32 == 0
    ensures -TWO_31 <= x < TWO_31 ==> r == x
  {
    var low := x % TWO_32;
    if low >= TWO_31 then low - TWO_32 else low
  }

  /**
   * Java's `a / b` on integers: the quotient rounded toward zero.
   * DivRemIdentity ties it to JavaRem.
   */
  function JavaDiv(a: int, b: int): (q: int)
    requires b != 0
    ensures Abs(q) == Abs(a) / Abs(b)
    ensures q != 0 ==> ((q < 0) <==> ((a < 0) != (b < 0)))
  {
    var n, d := Abs(a), Abs(b);
    assert n / d >= 0;
    if (a < 0) == (b < 0) then n / d else -(n / d)
  }

  /** Java's `a % b` on integers: the remainder takes the sign of the dividend. */
  function JavaRem(a: int, b: int): (r: int)
    requires b != 0
    ensures Abs(r) < Abs(b)
    ensures r != 0 ==> ((r < 0) <==> (a < 0))
  {
    var m := Abs(a) % Abs(b);
    if a < 0 then -m else m
  }

  /** `(a / b) * b + (a % b) == a`, the identity the two operators keep. */
  lemma DivRemIdentity(a: int, b: int)
    requires b != 0
    ensures JavaDiv(a, b) * b + JavaRem(a, b) == a
  {
    var q, m := Abs(a) / Abs(b), Abs(a) % Abs(b);
    assert q * Abs(b) + m == Abs(a);
    var sq := JavaDiv(a, b);
    if (a < 0) == (b < 0) {
      assert sq == q;
      if b < 0 {
        assert sq * b == -(q * Abs(b));
      } else {
        assert sq * b == q * Abs(b);
      }
    } else {
      assert sq == -q;
      if b < 0 {
        assert sq * b == q * Abs(b);
      } else {
        assert sq * b == -(q * Abs(b));
      }
    }
  }

  /** For a non-negative dividend and a positive divisor Java's `/` and `%` agree with Dafny's. */
  lemma JavaOfNonNegative(a: int, b: int)
    requires 0 <= a && 0 < b
    ensures JavaDiv(a, b) == a / b && JavaRem(a, b) == a % b
  {
  }

  function Pow2(n: nat): (p: nat)
    ensures p >= 1
  {
    if n == 0 then 1 else 2 * Pow2(n - 1)
  }

  lemma {:induction false} Pow2Add(a: nat, b: nat)
    ensures Pow2(a + b) == Pow2(a) * Pow2(b)
  {
    if a > 0 {
      Pow2Add(a - 1, b);
    }
  }

  lemma Pow2Of32()
    ensures Pow2(32) == TWO_32
  {
    assert Pow2(4) == 16;
    Pow2Add(4, 4);
    Pow2Add(8, 8);
    Pow2Add(16, 16);
  }

  /** Bitwise XOR of the low `width` bits of `a` and `b`. */
  function Xor(a: nat, b: nat, width: nat): (r: nat)
    ensures r < Pow2(width)
  {
    if width == 0 then 0
    else (if a % 2 == b % 2 then 0 else 1) + 2 * Xor(a / 2, b / 2, width - 1)
  }

  lemma {:induction false} XorZero(a: nat, width: nat)
    requires a < Pow2(width)
    ensures Xor(a, 0, width) == a
  {
    if width > 0 {
      XorZero(a / 2, width - 1);
    }
  }

  lemma {:induction false} XorSelf(a: nat, width: nat)
    ensures Xor(a, a, width) == 0
  {
    if width > 0 {
      XorSelf(a / 2, width - 1);
    }
  }

  /** The 64-bit pattern of a `long`, read as an unsigned number. */
  function Unsigned64(value: Long): (u: nat)
    ensures u < TWO_64
    ensures (u - value) % TWO_64 == 0
  {
    if value < 0 then value + TWO_64 else value
  }

  /**
   * `Long.hashCode(value)`, that is `(int)(value ^ (value >>> 32))`: the low
   * 32 bits of the XOR are the low half XOR the high half of the pattern.
   * A key whose high half is zero hashes to its low half read as an `int`:
   * keys below 2^31 hash to themselves, keys in [2^31, 2^32) to a negative number.
   */
  function LongHashCode(value: Long): (h: Int)
    ensures 0 <= value < TWO_31 ==> h == value
    ensures TWO_31 <= value < TWO_32 ==> h == value - TWO_32 < 0
  {
    var u := Unsigned64(value);
    var folded := Xor(u % TWO_32, u / TWO_32, 32);
    if 0 <= value < TWO_32 then
      assert u % TWO_32 == value && u / TWO_32 == 0;
      Pow2Of32();
      XorZero(value, 32);
      ToInt(folded)
    else
      ToInt(folded)
  }

  /** Complementing both operands leaves their XOR unchanged. */
  lemma {:induction false} XorComplement(a: nat, b: nat, width: nat)
    requires a < Pow2(width) && b < Pow2(width)
    ensures Xor(Pow2(width) - 1 - a, Pow2(width) - 1 - b, width) == Xor(a, b, width)
  {
    if width > 0 {
      var half := Pow2(width - 1);
      var a', b' := Pow2(width) - 1 - a, Pow2(width) - 1 - b;
      assert a' == 2 * (half - 1 - a / 2) + (1 - a % 2);
      assert b' == 2 * (half - 1 - b / 2) + (1 - b % 2);
      assert a' % 2 == 1 - a % 2 && a' / 2 == half - 1 - a / 2;
      assert b' % 2 == 1 - b % 2 && b' / 2 == half - 1 - b / 2;
      XorComplement(a / 2, b / 2, width - 1);
    }
  }

  /**
   * `Long.hashCode(~key) == Long.hashCode(key)` for every key: complementing
   * the pattern complements both halves, and their XOR is unchanged.
   */
  lemma HashOfComplement(key: Long)
    ensures LongHashCode(-1 - key) == LongHashCode(key)
  {
    var u, v := Unsigned64(key), Unsigned64(-1 - key);
    var lo, hi := u % TWO_32, u / TWO_32;
    assert u == hi * TWO_32 + lo && hi < TWO_32;
    assert v == TWO_64 - 1 - u;
    assert v == (TWO_32 - 1 - hi) * TWO_32 + (TWO_32 - 1 - lo);
    assert v % TWO_32 == TWO_32 - 1 - lo && v / TWO_32 == TWO_32 - 1 - hi;
    Pow2Of32();
    XorComplement(lo, hi, 32);
  }

  /** A key whose two halves are equal hashes to zero; `-1` is one. */
  lemma HashOfEqualHalves(key: Long)
    requires Unsigned64(key) % TWO_32 == Unsigned64(key) / TWO_32
    ensures LongHashCode(key) == 0
  {
    XorSelf(Unsigned64(key) % TWO_32, 32);
  }
}
