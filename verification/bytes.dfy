/** Byte-level helpers shared by every driver: the conversions between
    integers and `bv8`, and the 16-bit big-endian layout that MicroPython's
    `ustruct.pack(">H", v)` produces. */
module Bytes {

  /** The integer in 0..255 as a byte. */
  function ToByte(x: int): (b: bv8)
    requires 0 <= x < 0x100
    ensures b as int == x
  {
    ByteOfInt(x);
    x as bv8
  }

  /** The conversion to a byte is exact in range: counting up to `x` one
      byte at a time reaches the same byte. */
  lemma ByteOfInt(x: int)
    requires 0 <= x < 0x100
    ensures (x as bv8) as int == x
  {
    var b := CountUp(x);
    IntRoundTrip(b);
  }

  /** The byte reached by adding one `x` times. It carries no property of
      the drivers: it only gives the solver an inductive route to the
      integer-to-bitvector conversion, which it handles poorly when asked
      directly. */
  function CountUp(x: int): (b: bv8)
    requires 0 <= x < 0x100
    ensures b as int == x
  {
    if x == 0 then 0
    else
      var p := CountUp(x - 1);
      ByteSucc(p);
      p + 1
  }

  /** Adding one to a byte below 0xff does not wrap. */
  lemma ByteSucc(p: bv8)
    requires p < 0xff
    ensures (p + 1) as int == p as int + 1
  {
  }

  lemma IntRoundTrip(b: bv8)
    ensures (b as int) as bv8 == b
  {
  }

  /** The low 16 bits of `v`, as two's-complement truncation keeps them
      (Dafny's `%` is Euclidean, so this is also right for negative `v`). */
  function Wrap16(v: int): (w: int)
    ensures 0 <= w < 0x1_0000
    ensures 0 <= v < 0x1_0000 ==> w == v
  {
    v % 0x1_0000
  }

  /** Big-endian 16-bit value of a two-byte sequence. */
  function U16(b: seq<bv8>): (v: int)
    requires |b| == 2
    ensures 0 <= v < 0x1_0000
  {
    b[0] as int * 0x100 + b[1] as int
  }

  /** `ustruct.pack(">H", v)`: MicroPython stores the low 16 bits of `v`
      without a range check, high byte first. */
  function Be16(v: int): (r: seq<bv8>)
    ensures |r| == 2
    ensures U16(r) == Wrap16(v)
  {
    var w := Wrap16(v);
    [ToByte(w / 0x100), ToByte(w % 0x100)]
  }

  /** Decoding then re-encoding a two-byte sequence gives it back. */
  lemma Be16OfU16(b: seq<bv8>)
    requires |b| == 2
    ensures Be16(U16(b)) == b
  {
    var v := U16(b);
    assert v / 0x100 == b[0] as int;
    assert v % 0x100 == b[1] as int;
    IntRoundTrip(b[0]);
    IntRoundTrip(b[1]);
  }

  /** Two values encode to the same bytes exactly when they agree in their
      low 16 bits. */
  lemma Be16Injective(u: int, v: int)
    ensures Be16(u) == Be16(v) <==> Wrap16(u) == Wrap16(v)
  {
    if Be16(u) == Be16(v) {
      assert U16(Be16(u)) == U16(Be16(v));
    }
  }
}

/** Failure-carrying result types used by the drivers in place of Python
    exceptions. */
module Results {

  datatype Option<+T> = None | Some(value: T)

  datatype Result<+T, +E> = Success(value: T) | Failure(error: E)
}

/** Facts about integer division that the solver does not find alone. */
module Arith {

  /** The only multiple of a positive `d` strictly between `-d` and `d` is 0. */
  lemma SmallMultiple(m: int, d: int)
    requires d > 0
    requires -d < m * d < d
    ensures m == 0
  {
  }

  /** Division and remainder of `q * d + r` with `0 <= r < d`. */
  lemma DivModOf(q: int, r: int, d: int)
    requires d > 0 && 0 <= r < d
    ensures (q * d + r) / d == q
    ensures (q * d + r) % d == r
  {
    var n := q * d + r;
    var q' := n / d;
    var r' := n % d;
    assert n == q' * d + r';
    assert (q' - q) * d == r - r';
    SmallMultiple(q' - q, d);
  }

  lemma MulSign(q: int, d: int)
    requires d > 0
    ensures q < 0 ==> q * d <= -d
    ensures q >= 0 ==> q * d >= 0
  {
  }

  /** Floor division by a positive `d` has the sign of the dividend. */
  lemma FloorSign(n: int, d: int)
    requires d > 0
    ensures n == (n / d) * d + n % d && 0 <= n % d < d
    ensures n >= 0 ==> n / d >= 0
    ensures n < 0 ==> n / d < 0
  {
    MulSign(n / d, d);
  }

  /** Splitting an even `n` by an even `d`: the remainder is even and the
      halves add up. */
  lemma EvenSplit(n: int, d: int)
    requires d > 0 && d % 2 == 0 && n % 2 == 0
    ensures (n % d) % 2 == 0
    ensures (n / d) * (d / 2) + (n % d) / 2 == n / 2
  {
    var h := d / 2;
    var q := n / d;
    var m := q * h;
    assert q * d == 2 * m;
    assert n == 2 * m + n % d;
  }

  /** Row-major indexing of a `height` by `width` grid. */
  lemma RowMajor(row: int, col: int, width: int, height: int)
    requires 0 <= row < height && 0 <= col < width
    ensures 0 <= row * width + col < height * width
    ensures (row * width + col) / width == row
    ensures (row * width + col) % width == col
  {
    assert row * width <= (height - 1) * width;
    DivModOf(row, col, width);
  }

  /** Moving a number by a nonzero amount smaller than `d` in magnitude
      changes its remainder modulo `d`. */
  lemma ResidueShift(a: int, delta: int, d: int)
    requires d > 0 && delta != 0 && -d < delta < d
    ensures a % d != (a + delta) % d
  {
    var b := a + delta;
    FloorSign(a, d);
    FloorSign(b, d);
    if a % d == b % d {
      assert (b / d - a / d) * d == b / d * d - a / d * d;
      SmallMultiple(b / d - a / d, d);
    }
  }

  lemma PositiveProduct(a: int, b: int)
    requires a > 0 && b > 0
    ensures a * b > 0
  {
  }
}
