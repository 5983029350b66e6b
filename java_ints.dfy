/**
 * Java's fixed-width integer semantics over Dafny's unbounded integers:
 * the signed 8-bit `byte`, the narrowing cast `(byte)`, the mask `& 0xFF`,
 * the unsigned shift `>>>` on `int` and `long`, and 64-bit wrap-around,
 * with the division facts the codec proofs rest on.
 */
module JavaInts {

  /** A Java `byte`: a signed two's-complement 8-bit value. */
  type int8 = x: int | -128 <= x < 128

  const TWO_8: int := 0x100
  const TWO_16: int := 0x1_0000
  const TWO_24: int := 0x100_0000
  const TWO_32: int := 0x1_0000_0000
  const TWO_56: int := 0x100_0000_0000_0000
  const TWO_64: int := 0x1_0000_0000_0000_0000

  predicate IsInt32(x: int) { -0x8000_0000 <= x < 0x8000_0000 }

  predicate IsInt64(x: int) { -0x8000_0000_0000_0000 <= x < 0x8000_0000_0000_0000 }

  /** The narrowing cast `(byte) x`: keeps the low 8 bits, read as two's complement. */
  function ToByte(x: int): (b: int8)
    ensures (b - x) % TWO_8 == 0
    ensures -128 <= x < 128 ==> b == x
  {
    (x + 128) % TWO_8 - 128
  }

  /** `b & 0xFF`: the byte's bit pattern read as an unsigned value. */
  function Unsigned8(b: int8): (u: int)
    ensures 0 <= u < TWO_8
    ensures u == b || u == b + TWO_8
  {
    if b < 0 then b + TWO_8 else b
  }

  /** 256 to the power k, for the byte positions of a `long` and the `long` range itself. */
  function Pow256(k: nat): (p: int)
    requires k <= 8
    ensures p > 0
  {
    if k == 0 then 1
    else if k == 1 then 0x100
    else if k == 2 then 0x1_0000
    else if k == 3 then 0x100_0000
    else if k == 4 then 0x1_0000_0000
    else if k == 5 then 0x100_0000_0000
    else if k == 6 then 0x1_0000_0000_0000
    else if k == 7 then 0x100_0000_0000_0000
    else 0x1_0000_0000_0000_0000
  }

  lemma Pow256Step(k: nat)
    requires 0 < k <= 8
    ensures Pow256(k) == Pow256(k - 1) * TWO_8
  {
  }

  /** `x >>> (8 * k)` on a Java `int`. */
  function UShr32(x: int, k: nat): int
    requires k < 4
  {
    (x % TWO_32) / Pow256(k)
  }

  /** `x >>> (8 * k)` on a Java `long`. */
  function UShr64(x: int, k: nat): int
    requires k < 8
  {
    (x % TWO_64) / Pow256(k)
  }

  /** The `long` whose two's-complement pattern is `x` modulo 2^64 (Java's `long` overflow). */
  function Wrap64(x: int): (r: int)
    ensures IsInt64(r)
    ensures (r - x) % TWO_64 == 0
  {
    (x + 0x8000_0000_0000_0000) % TWO_64 - 0x8000_0000_0000_0000
  }

  // ---------------------------------------------------------------- division facts

  lemma MulAtLeast(a: int, d: int)
    requires a >= 1 && d > 0
    ensures a * d >= d
  {
  }

  lemma MulAtMost(a: int, b: int, d: int)
    requires 0 <= a <= b && d > 0
    ensures a * d <= b * d
  {
  }

  /** Euclidean division is determined by quotient and remainder. */
  lemma DivUnique(x: int, d: int, q: int, r: int)
    requires d > 0 && 0 <= r < d && x == q * d + r
    ensures x / d == q
  {
    var q', r' := x / d, x % d;
    assert x == q' * d + r';
    assert (q' - q) * d == r - r';
    if q' > q { MulAtLeast(q' - q, d); }
    if q' < q { MulAtLeast(q - q', d); }
  }

  lemma ModUnique(x: int, d: int, q: int, r: int)
    requires d > 0 && 0 <= r < d && x == q * d + r
    ensures x % d == r
  {
    DivUnique(x, d, q, r);
  }

  lemma DivAddMultiple(v: int, d: int, m: int)
    requires d > 0
    ensures (v + d * m) / d == v / d + m
  {
    var q, r := v / d, v % d;
    assert v + d * m == (q + m) * d + r;
    DivUnique(v + d * m, d, q + m, r);
  }

  /** Dividing twice is dividing by the product. */
  lemma DivDiv(x: int, a: int, b: int)
    requires a > 0 && b > 0
    ensures x / a / b == x / (a * b)
  {
    var q, r := x / a, x % a;
    var q2, r2 := q / b, q % b;
    assert x == q2 * (a * b) + (r2 * a + r);
    MulAtMost(r2, b - 1, a);
    DivUnique(x, a * b, q2, r2 * a + r);
  }

  lemma NegativeMod(v: int, m: int)
    requires -m <= v < 0
    ensures v % m == v + m
  {
    ModUnique(v, m, -1, v + m);
  }

  // ---------------------------------------------------------------- byte casts

  lemma ToByteCongruent(a: int, b: int)
    requires (a - b) % TWO_8 == 0
    ensures ToByte(a) == ToByte(b)
  {
  }

  /** `((byte) y) & 0xFF` is `y mod 256`. */
  lemma UnsignedToByte(y: int)
    ensures Unsigned8(ToByte(y)) == y % TWO_8
  {
  }

  /** `(byte)((v mod M) / d) == (byte)(v / d)` when `d * m == M` and 256 divides `m`. */
  lemma ByteOfReducedQuotient(v: int, bigM: int, d: int, m: int)
    requires d > 0 && m > 0 && d * m == bigM && m % TWO_8 == 0 && -bigM <= v < bigM
    ensures ToByte((v % bigM) / d) == ToByte(v / d)
  {
    if v < 0 {
      NegativeMod(v, bigM);
      DivAddMultiple(v, d, m);
      ToByteCongruent((v % bigM) / d, v / d);
    } else {
      ModUnique(v, bigM, 0, v);
    }
  }

  /** `(byte)(v >>> 8k) == (byte)(v >> 8k)` on an `int`: the cast drops the bits the two shifts fill differently. */
  lemma UShr32Byte(v: int, k: nat)
    requires IsInt32(v) && 0 < k < 4
    ensures ToByte(UShr32(v, k)) == ToByte(v / Pow256(k))
  {
    var d := Pow256(k);
    assert d * (TWO_32 / d) == TWO_32 && (TWO_32 / d) % TWO_8 == 0;
    ByteOfReducedQuotient(v, TWO_32, d, TWO_32 / d);
  }

  /** `(byte)(v >>> 8k) == (byte)(v >> 8k)` on a `long`. */
  lemma UShr64Byte(v: int, k: nat)
    requires IsInt64(v) && 0 < k < 8
    ensures ToByte(UShr64(v, k)) == ToByte(v / Pow256(k))
  {
    var d := Pow256(k);
    assert d * (TWO_64 / d) == TWO_64 && (TWO_64 / d) % TWO_8 == 0;
    ByteOfReducedQuotient(v, TWO_64, d, TWO_64 / d);
  }

  // ---------------------------------------------------------------- 64-bit wrap-around

  /** `Wrap64(x)` is `x` less a whole number of 2^64 turns. */
  lemma WrapIsTurns(x: int)
    ensures Wrap64(x) == x - ((x + 0x8000_0000_0000_0000) / TWO_64) * TWO_64
  {
    var y := x + 0x8000_0000_0000_0000;
    assert y == (y / TWO_64) * TWO_64 + y % TWO_64;
  }

  /** The `long` that differs from `x` by `k` whole turns of 2^64 is `Wrap64(x)`. */
  lemma Wrap64Unique(x: int, r: int, k: int)
    requires IsInt64(r) && r - x == k * TWO_64
    ensures Wrap64(x) == r
  {
    ModUnique(x + 0x8000_0000_0000_0000, TWO_64, -k, r + 0x8000_0000_0000_0000);
  }

  /**
   * `result <<= 8; result |= b & 0xFF` on a `long`: the shift clears the low
   * 8 bits, so the `|` adds, and wrapping before or after the step agrees.
   */
  lemma ShiftInByte(u: int, b: int8)
    ensures Wrap64(Wrap64(u) * TWO_8) + Unsigned8(b) == Wrap64(u * TWO_8 + Unsigned8(b))
  {
    var a := Wrap64(u);
    var p := (u + 0x8000_0000_0000_0000) / TWO_64;
    WrapIsTurns(u);
    assert a == u - p * TWO_64;
    var w := Wrap64(a * TWO_8);
    var c := (a * TWO_8 + 0x8000_0000_0000_0000) / TWO_64;
    WrapIsTurns(a * TWO_8);
    assert w == a * TWO_8 - c * TWO_64;
    assert w == (a - c * TWO_56) * TWO_8;
    assert w + Unsigned8(b) - (u * TWO_8 + Unsigned8(b)) == -(p * TWO_8 + c) * TWO_64;
    Wrap64Unique(u * TWO_8 + Unsigned8(b), w + Unsigned8(b), -(p * TWO_8 + c));
  }
}
