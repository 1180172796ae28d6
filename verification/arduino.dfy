/** The integer types of the ESP32 target and the few Arduino core routines
    the firmware calls (`map`, `constrain`, the unsigned `millis()`
    difference). On this target `int` and `long` are 32-bit two's-complement
    and `unsigned long` is 32-bit unsigned; Dafny integers are unbounded, so
    every wrap-around is written out here. */
module Arduino {

  const TWO_31: int := 0x8000_0000
  const TWO_32: int := 0x1_0000_0000

  /** `int` and `long` on the ESP32. */
  type Int32 = x: int | -0x8000_0000 <= x < 0x8000_0000

  /** `unsigned long`, the type of `millis()` and `pulseIn()`. */
  type UInt32 = x: int | 0 <= x < 0x1_0000_0000

  /** One byte as returned by `Wire.read()` when data is available. */
  type Byte = x: int | 0 <= x < 0x100

  /** Logic level written to a digital pin. */
  datatype Level = Low | High

  /** Two's-complement truncation of an integer to 32 bits: the unique
      `Int32` congruent to `x` modulo 2^32. */
  function WrapInt32(x: int): (r: Int32)
    ensures (x - r) % TWO_32 == 0
    ensures -TWO_31 <= x < TWO_31 ==> r == x
  {
    var m := x % TWO_32;
    if m < TWO_31 then m else m - TWO_32
  }

  /** `now - start` on `unsigned long`: the time elapsed since `start`,
      correct across one wrap of the millisecond counter. */
  function ElapsedMillis(now: UInt32, start: UInt32): (e: UInt32)
    ensures (start + e) % TWO_32 == now
    ensures start <= now ==> e == now - start
    ensures now < start ==> e == TWO_32 - start + now
  {
    (now - start) % TWO_32
  }

  /** C's integer `/`: the quotient rounded toward zero, so that the
      remainder `a - q*b` has the sign of `a` and is smaller than `b` in
      magnitude. Dafny's own `/` rounds toward negative infinity instead. */
  function TruncDiv(a: int, b: int): int
    requires b > 0
  {
    if a >= 0 then a / b else -((-a) / b)
  }

  /** The remainder of C's division has the sign of the dividend and is
      smaller than the divisor. */
  lemma TruncDivRemainder(a: int, b: int)
    requires b > 0
    ensures a >= 0 ==> 0 <= a - TruncDiv(a, b) * b < b
    ensures a < 0 ==> -b < a - TruncDiv(a, b) * b <= 0
  {
  }

  /** Multiplying by a non-negative factor preserves order. */
  lemma MulMonotone(u: int, v: int, c: nat)
    requires u <= v
    ensures u * c <= v * c
  {
  }

  /** Euclidean division of non-negative numbers by a positive divisor is
      monotone in the dividend. */
  lemma DivMonotone(x: nat, y: nat, b: int)
    requires b > 0
    requires x <= y
    ensures x / b <= y / b
  {
    if x / b > y / b {
      assert (y / b + 1) * b == (y / b) * b + b;
      MulMonotone(y / b + 1, x / b, b);
      assert false;
    }
  }

  /** For a negative dividend, C's quotient is the negated quotient of the
      magnitude, and not positive. */
  lemma TruncDivNegative(a: int, b: int)
    requires b > 0 && a < 0
    ensures TruncDiv(a, b) == -((-a) / b) <= 0
  {
  }

  /** For a non-negative dividend, C's quotient is Dafny's, and not
      negative. */
  lemma TruncDivNonNegative(a: int, b: int)
    requires b > 0 && a >= 0
    ensures TruncDiv(a, b) == a / b >= 0
  {
    DivMonotone(0, a, b);
  }

  /** Truncating division by a positive divisor never decreases when its
      dividend grows. */
  lemma TruncDivMonotone(a: int, a': int, b: int)
    requires b > 0
    requires a <= a'
    ensures TruncDiv(a, b) <= TruncDiv(a', b)
  {
    if a >= 0 {
      TruncDivNonNegative(a, b);
      TruncDivNonNegative(a', b);
      DivMonotone(a, a', b);
    } else if a' < 0 {
      TruncDivNegative(a, b);
      TruncDivNegative(a', b);
      DivMonotone(-a', -a, b);
    } else {
      TruncDivNegative(a, b);
      TruncDivNonNegative(a', b);
    }
  }

  /** The only multiple of `b` strictly between `-b` and `b` is zero. */
  lemma SmallMultipleIsZero(m: int, b: int)
    requires b > 0
    requires -b < m * b < b
    ensures m == 0
  {
    if m >= 1 {
      MulMonotone(1, m, b);
    } else if m <= -1 {
      MulMonotone(m, -1, b);
    }
  }

  /** Dividing an exact multiple truncates nothing. */
  lemma TruncDivExact(k: int, b: int)
    requires b > 0
    ensures TruncDiv(k * b, b) == k
  {
    var q := TruncDiv(k * b, b);
    TruncDivRemainder(k * b, b);
    assert k * b - q * b == (k - q) * b;
    SmallMultipleIsZero(k - q, b);
  }

  /** Arduino's `constrain(amt, low, high)` macro: clamp into `[low, high]`. */
  function Constrain(amt: int, low: int, high: int): (r: int)
    requires low <= high
    ensures low <= r <= high
    ensures low <= amt <= high ==> r == amt
    ensures amt < low ==> r == low
    ensures amt > high ==> r == high
  {
    if amt < low then low else if amt > high then high else amt
  }

  /** Clamping is idempotent and never reorders its inputs. */
  lemma ConstrainIdempotentMonotone(x: int, y: int, low: int, high: int)
    requires low <= high
    ensures Constrain(Constrain(x, low, high), low, high) == Constrain(x, low, high)
    ensures x <= y ==> Constrain(x, low, high) <= Constrain(y, low, high)
  {
  }

  /** Arduino's `map(x, in_min, in_max, out_min, out_max)`,
      `(x - in_min) * (out_max - out_min) / (in_max - in_min) + out_min`
      with C's truncating division, evaluated without overflow. This is the
      value the formula is meant to compute. */
  function Map(x: int, inMin: int, inMax: int, outMin: int, outMax: int): int
    requires inMin < inMax
  {
    TruncDiv((x - inMin) * (outMax - outMin), inMax - inMin) + outMin
  }

  /** The same formula evaluated as the library does, on 32-bit `long`:
      every subtraction, the product and the final sum wrap modulo 2^32. */
  function MapLong(x: Int32, inMin: Int32, inMax: Int32, outMin: Int32, outMax: Int32): (r: Int32)
    requires WrapInt32(inMax - inMin) > 0
  {
    var product := WrapInt32(WrapInt32(x - inMin) * WrapInt32(outMax - outMin));
    WrapInt32(TruncDiv(product, WrapInt32(inMax - inMin)) + outMin)
  }

  function Pow2(n: nat): (p: nat)
    ensures p >= 1
  {
    if n == 0 then 1 else 2 * Pow2(n - 1)
  }

  /** C's `x << n` on a non-negative value that does not overflow. */
  function ShiftLeft(x: nat, n: nat): nat
  {
    x * Pow2(n)
  }

  /** C's bitwise `a | b` on non-negative values, bit by bit from the
      least significant end. */
  function BitOr(a: nat, b: nat): nat
    decreases a + b
  {
    if a == 0 && b == 0 then 0
    else 2 * BitOr(a / 2, b / 2) + (if a % 2 == 1 || b % 2 == 1 then 1 else 0)
  }

  lemma {:induction false} BitOrZero(a: nat)
    ensures BitOr(a, 0) == a
    decreases a
  {
    if a != 0 {
      BitOrZero(a / 2);
    }
  }

  /** Or-ing a value below 2^n into one shifted left by n bits adds it:
      the two share no set bit. */
  lemma {:induction false} BitOrShiftedIsSum(h: nat, l: nat, n: nat)
    requires l < Pow2(n)
    ensures BitOr(ShiftLeft(h, n), l) == ShiftLeft(h, n) + l
    decreases n
  {
    if n == 0 {
      BitOrZero(h);
    } else {
      assert ShiftLeft(h, n) == 2 * ShiftLeft(h, n - 1);
      BitOrShiftedIsSum(h, l / 2, n - 1);
    }
  }
}
