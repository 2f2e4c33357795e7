/** Fixed-width integer arithmetic of the simulator, written out over Dafny's unbounded
    integers: Go's int32/int64 wrap-around, its shifts and its bitwise operators. */
module Bits {

  const TWO_31: int := 0x8000_0000
  const TWO_32: int := 0x1_0000_0000
  const TWO_63: int := 0x8000_0000_0000_0000
  const TWO_64: int := 0x1_0000_0000_0000_0000

  /** Go's `int32` and `int64`. */
  type Int32 = x: int | -0x8000_0000 <= x < 0x8000_0000
  type Int64 = x: int | -0x8000_0000_0000_0000 <= x < 0x8000_0000_0000_0000

  /** An instruction word as the decoder holds it: an unsigned value below 2^32. */
  type Word = x: int | 0 <= x < 0x1_0000_0000

  function Pow2(n: nat): (r: nat)
    ensures r >= 1
  {
    if n == 0 then 1 else 2 * Pow2(n - 1)
  }

  lemma {:induction false} Pow2Add(a: nat, b: nat)
    ensures Pow2(a + b) == Pow2(a) * Pow2(b)
  {
    if a != 0 {
      var x, y := Pow2(a - 1), Pow2(b);
      Pow2Add(a - 1, b);
      assert Pow2(a + b) == x * y + x * y;
      assert Pow2(a) == x + x;
      Distribute(x, x, y);
    }
  }

  lemma Pow2Values()
    ensures Pow2(16) == 0x1_0000 && Pow2(32) == TWO_32 && Pow2(48) == 0x1_0000_0000_0000
    ensures Pow2(63) == TWO_63 && Pow2(64) == TWO_64
  {
    Pow2Small();
    Pow2Of32();
    Pow2Of48();
    Pow2Of64();
    Pow2Add(48, 15);
  }

  lemma Pow2Small()
    ensures Pow2(8) == 0x100 && Pow2(15) == 0x8000 && Pow2(16) == 0x1_0000
  {
    assert Pow2(3) == 8 && Pow2(4) == 16 by {
      assert Pow2(1) == 2 && Pow2(2) == 4;
    }
    assert Pow2(8) == 0x100 by { Pow2Add(4, 4); }
    assert Pow2(7) == 0x80 by { Pow2Add(4, 3); }
    assert Pow2(15) == 0x8000 by { Pow2Add(8, 7); }
    Pow2Add(8, 8);
  }

  lemma Pow2Of32()
    ensures Pow2(32) == TWO_32
  {
    Pow2Small();
    Pow2Add(16, 16);
  }

  lemma Pow2Of48()
    ensures Pow2(48) == 0x1_0000_0000_0000
  {
    Pow2Small();
    Pow2Of32();
    Pow2Add(32, 16);
  }

  lemma Pow2Of64()
    ensures Pow2(64) == TWO_64
  {
    Pow2Of32();
    Pow2Add(32, 32);
  }

  /** Euclidean division by a positive constant, seen from the quotient:
      `hi * k + lo` splits back into `hi` and `lo` when `lo` is a valid remainder. */
  lemma Peel(hi: int, lo: int, k: int)
    requires k > 0 && 0 <= lo < k
    ensures (hi * k + lo) / k == hi && (hi * k + lo) % k == lo
  {
    var q, r := (hi * k + lo) / k, (hi * k + lo) % k;
    assert (q - hi) * k == lo - r;
    MulBounds(q - hi, k);
  }

  /** Reducing a summand first does not change the remainder of a sum. */
  lemma ModInner(a: int, b: int, k: int)
    requires k > 0
    ensures (a + b % k) % k == (a + b) % k
  {
    var q, s := b / k, a + b % k;
    assert a + b == (q + s / k) * k + s % k by {
      Distribute(q, s / k, k);
    }
    Peel(q + s / k, s % k, k);
  }

  /** Dividing by `a` and then by `b` is dividing by `a * b`: two shifts compose. */
  lemma DivDiv(w: int, a: int, b: int)
    requires w >= 0 && a > 0 && b > 0
    ensures w / a / b == w / (a * b)
  {
    var q, r2, r1 := w / a / b, (w / a) % b, w % a;
    assert w == (q * b + r2) * a + r1;
    assert w == q * (a * b) + (r2 * a + r1);
    MulBounds(b - 1 - r2, a);
    Peel(q, r2 * a + r1, a * b);
  }

  /** A field of width `m` at weight `k`, with everything above it at weight `k * m`,
      reads back by shifting and masking. */
  lemma FieldOf(w: int, hi: int, mid: int, lo: int, k: int, m: int)
    requires k > 0 && m > 0 && 0 <= mid < m && 0 <= lo < k
    requires w == hi * (k * m) + mid * k + lo
    ensures w / k == hi * m + mid && (w / k) % m == mid && w % k == lo
  {
    assert w == (hi * m + mid) * k + lo;
    Peel(hi * m + mid, lo, k);
    Peel(hi, mid, m);
  }

  /** Modulo `2 * b`, a number is its bit of weight `b` above its remainder by `b`. */
  lemma TopBit(y: int, b: int)
    requires y >= 0 && b > 0
    ensures y % (2 * b) == ((y / b) % 2) * b + y % b
  {
    var q, r := y / b, y % b;
    var h, top := q / 2, q % 2;
    assert y == h * (2 * b) + (top * b + r) by {
      Distribute(2 * h, top, b);
      assert (2 * h) * b == h * (2 * b);
    }
    DigitBelow(top, r, b, 2);
    Peel(h, top * b + r, 2 * b);
  }

  /** Below `k * m`, the quotient by `k` is below `m`. */
  lemma DivBelow(u: int, k: int, m: int)
    requires 0 <= u < k * m && k > 0
    ensures 0 <= u / k < m
  {
    assert (u / k) * k <= u;
    MulBounds(u / k - m, k);
  }

  /** A digit below `m` at weight `k`, plus anything below `k`, stays below `k * m`. */
  lemma DigitBelow(d: int, lo: int, k: int, m: int)
    requires 0 <= d < m && 0 <= lo < k
    ensures 0 <= d * k + lo < m * k
  {
    MulBounds(m - 1 - d, k);
    MulBounds(d, k);
    Distribute(m - 1 - d, d + 1, k);
  }

  lemma Distribute(a: int, b: int, c: int)
    ensures (a + b) * c == a * c + b * c
  {
  }

  /** Sign and size of a product with a positive factor. */
  lemma MulBounds(a: int, k: int)
    requires k >= 1
    ensures a >= 1 ==> a * k >= k
    ensures a <= -1 ==> a * k <= -k
    ensures a >= 0 ==> a * k >= a
    ensures a <= 0 ==> a * k <= a
  {
    if a >= 1 {
      assert a * k == (a - 1) * k + k;
    } else if a <= -1 {
      assert a * k == (a + 1) * k - k;
    }
  }

  /** Go's conversion `int32(x)`: keep the low 32 bits and read them as two's complement. */
  function Wrap32(x: int): (r: Int32)
    ensures r % TWO_32 == x % TWO_32
  {
    var m := x % TWO_32;
    if m < TWO_31 then m else m - TWO_32
  }

  /** Go's `int64` wrap-around, applied after every int64 addition, subtraction and product. */
  function Wrap64(x: int): (r: Int64)
    ensures r % TWO_64 == x % TWO_64
  {
    var m := x % TWO_64;
    if m < TWO_63 then m else m - TWO_64
  }

  /** A wrap-around is determined by the residue class of its argument. */
  lemma Wrap32Congruent(x: int, y: int)
    requires x % TWO_32 == y % TWO_32
    ensures Wrap32(x) == Wrap32(y)
  {
  }

  lemma Wrap64Congruent(x: int, y: int)
    requires x % TWO_64 == y % TWO_64
    ensures Wrap64(x) == Wrap64(y)
  {
  }

  /** An inner int64 wrap-around is absorbed by an outer one: Go's chained int64 arithmetic
      agrees with a single wrap of the exact result. */
  lemma Wrap64Absorbs(a: int, b: int)
    ensures Wrap64(Wrap64(a) + b) == Wrap64(a + b)
  {
    var j := if a % TWO_64 < TWO_63 then a / TWO_64 else a / TWO_64 + 1;
    assert Wrap64(a) + b == (a + b) - j * TWO_64;
    var q, r := (a + b) / TWO_64, (a + b) % TWO_64;
    assert (a + b) - j * TWO_64 == (q - j) * TWO_64 + r by {
      Distribute(q, -j, TWO_64);
    }
    Peel(q - j, r, TWO_64);
    Wrap64Congruent(Wrap64(a) + b, a + b);
  }

  /** The bits of an int64 read as Go's `uint64`. */
  function Unsigned64(x: Int64): (u: nat)
    ensures u < TWO_64 && u % TWO_64 == x % TWO_64
  {
    if x < 0 then x + TWO_64 else x
  }

  /** A value that fits in 64 unsigned bits comes back from its int64 wrap-around. */
  lemma UnsignedOfWrap(n: int)
    requires 0 <= n < TWO_64
    ensures Unsigned64(Wrap64(n)) == n
  {
  }

  function Add64(a: Int64, b: Int64): Int64 { Wrap64(a + b) }
  function Sub64(a: Int64, b: Int64): Int64 { Wrap64(a - b) }
  function Mul64(a: Int64, b: Int64): Int64 { Wrap64(a * b) }

  /** `a + m - d` in int64 arithmetic, with `m` wrapped first (a product, say), is the
      wrap-around of the exact value. */
  lemma AddSub64(a: Int64, m: int, d: Int64)
    ensures Sub64(Add64(a, Wrap64(m)), d) == Wrap64(a + m - d)
  {
    Wrap64Absorbs(a + Wrap64(m), -(d as int));
    Wrap64Absorbs(m, a - d);
  }

  function ToBv64(x: Int64): bv64
  {
    Unsigned64(x) as bv64
  }

  function FromBv64(b: bv64): Int64
  {
    Wrap64(b as int)
  }

  function And64(a: Int64, b: Int64): Int64 { FromBv64(ToBv64(a) & ToBv64(b)) }
  function Or64(a: Int64, b: Int64): Int64 { FromBv64(ToBv64(a) | ToBv64(b)) }
  function Xor64(a: Int64, b: Int64): Int64 { FromBv64(ToBv64(a) ^ ToBv64(b)) }

  /** Go's `x << s` on an int64: the product by 2^s, wrapped; counts of 64 or more give 0. */
  function Shl64(x: Int64, s: nat): (r: Int64)
    ensures s < 64 ==> r % TWO_64 == (x * Pow2(s)) % TWO_64
    ensures s >= 64 ==> r == 0
  {
    if s >= 64 then 0 else Wrap64(x * Pow2(s))
  }

  /** Go's `x >> s` on an int64: arithmetic, rounding towards minus infinity, so the sign
      is kept; counts of 64 or more leave only sign bits (0 or -1). */
  function Asr64(x: Int64, s: nat): (r: Int64)
    ensures s < 64 ==> r * Pow2(s) <= x < (r + 1) * Pow2(s)
    ensures r < 0 <==> x < 0
  {
    if s >= 64 then (if x < 0 then -1 else 0)
    else AsrBelow64(x, s)
  }

  function AsrBelow64(x: Int64, s: nat): (r: Int64)
    requires s < 64
    ensures r * Pow2(s) <= x < (r + 1) * Pow2(s)
    ensures r < 0 <==> x < 0
  {
    FloorDiv(x, Pow2(s));
    x / Pow2(s)
  }

  /** Euclidean division by a positive divisor is floor division, and it moves its
      argument towards zero without crossing it. */
  lemma FloorDiv(x: int, d: int)
    requires d >= 1
    ensures (x / d) * d <= x < (x / d + 1) * d
    ensures x >= 0 ==> 0 <= x / d <= x
    ensures x < 0 ==> x <= x / d < 0
  {
    var q := x / d;
    assert q * d <= x < (q + 1) * d;
    MulBounds(q, d);
    MulBounds(q + 1, d);
  }

  /** Go's `int64(uint64(x) >> s)`: logical, so any shift by at least one gives a
      non-negative result. */
  function Lsr64(x: Int64, s: nat): (r: Int64)
    ensures 0 < s < 64 ==> 0 <= r && r * Pow2(s) <= Unsigned64(x) < (r + 1) * Pow2(s)
    ensures s == 0 ==> r == x
    ensures s >= 64 ==> r == 0
  {
    if s >= 64 then 0
    else if s == 0 then x
    else
      var d := Pow2(s);
      var u := Unsigned64(x);
      FloorDiv(u, d);
      assert u / d < TWO_63 by {
        assert d == 2 * Pow2(s - 1);
        MulBounds(u / d, Pow2(s - 1));
      }
      u / d
  }
}
