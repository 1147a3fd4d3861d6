/** Powers of two and the aligned-block arithmetic that the allocator relies on. */
module Powers {

  function Pow2(n: nat): (r: nat)
    ensures r >= 1
  {
    if n == 0 then 1 else 2 * Pow2(n - 1)
  }

  function Min(a: int, b: int): int {
    if a < b then a else b
  }

  /** Go's `int64(math.Pow(2, float64(n)))`: a negative exponent truncates to zero. */
  function TruncPow2(n: int): nat {
    if n < 0 then 0 else Pow2(n)
  }

  lemma {:induction false} Pow2Add(a: nat, b: nat)
    ensures Pow2(a + b) == Pow2(a) * Pow2(b)
  {
    if a > 0 {
      Pow2Add(a - 1, b);
      MulAssoc(2, Pow2(a - 1), Pow2(b));
    }
  }

  lemma {:induction false} Pow2Grows(a: nat, b: nat)
    requires a < b
    ensures 2 * Pow2(a) <= Pow2(b)
  {
    if b > a + 1 { Pow2Grows(a, b - 1); }
  }

  lemma Pow2Values()
    ensures Pow2(1) == 2 && Pow2(2) == 4 && Pow2(3) == 8 && Pow2(4) == 16
    ensures Pow2(5) == 32 && Pow2(6) == 64 && Pow2(7) == 128 && Pow2(8) == 256
    ensures Pow2(32) == 0x1_0000_0000
  {
    assert Pow2(4) == 2 * Pow2(3);
    assert Pow2(8) == 256 by { assert Pow2(5) == 32; assert Pow2(7) == 128; }
    Pow2Add(8, 8);
    Pow2Add(16, 16);
    assert Pow2(16) == 65536;
  }

  lemma Pow2Byte(k: nat)
    requires k >= 8
    ensures Pow2(k) == 256 * Pow2(k - 8)
  {
    Pow2Values();
    Pow2Add(8, k - 8);
  }

  lemma MulAssoc(a: int, b: int, c: int)
    ensures a * (b * c) == (a * b) * c
  {}

  lemma MulStep(a: nat, i: int, j: int)
    requires i < j
    ensures a * i + a <= a * j
    decreases j - i
  {
    if i + 1 < j {
      MulStep(a, i + 1, j);
      assert a * (i + 1) == a * i + a;
    } else {
      assert j == i + 1;
    }
  }

  lemma DivMod(x: int, m: int)
    requires m > 0
    ensures x == m * (x / m) + x % m && 0 <= x % m < m
    ensures x >= 0 ==> x / m >= 0 && x % m <= x
  {}

  /** A number between two consecutive multiples of `m` has the lower one as its quotient. */
  lemma QuotientUnique(x: int, m: int, q: int)
    requires m > 0 && m * q <= x < m * q + m
    ensures x / m == q && x % m == x - m * q
  {
    var d := x / m;
    assert x == m * d + x % m;
    if d < q { MulStep(m, d, q); }
    if q < d { MulStep(m, q, d); }
  }

  lemma MultipleMod(m: int, q: int)
    requires m > 0
    ensures (m * q) % m == 0 && (m * q) / m == q
  {
    QuotientUnique(m * q, m, q);
  }

  /** Rounding down to a multiple of `m` gives a multiple of every divisor of `m`. */
  lemma RoundDownAligned(x: nat, m: nat, d: nat)
    requires m > 0 && d > 0 && m % d == 0
    ensures 0 <= x - x % m && (x - x % m) % d == 0
  {
    var q, k := x / m, m / d;
    DivMod(x, m);
    DivMod(m, d);
    MulAssoc(d, k, q);
    MultipleMod(d, k * q);
  }

  lemma Pow2Divides(a: nat, b: nat)
    requires a <= b
    ensures Pow2(b) % Pow2(a) == 0 && Pow2(b) / Pow2(a) == Pow2(b - a)
  {
    Pow2Add(a, b - a);
    MultipleMod(Pow2(a), Pow2(b - a));
  }

  lemma Transitive(x: int, m: int, d: int)
    requires m > 0 && d > 0 && x % m == 0 && m % d == 0
    ensures x % d == 0
  {
    var k, q := m / d, x / m;
    DivMod(x, m);
    DivMod(m, d);
    MulAssoc(d, k, q);
    MultipleMod(d, k * q);
  }

  lemma SumAligned(x: int, y: int, d: int)
    requires d > 0 && x % d == 0 && y % d == 0
    ensures (x + y) % d == 0 && (x - y) % d == 0
  {
    var i, j := x / d, y / d;
    DivMod(x, d);
    DivMod(y, d);
    assert d * (i + j) == d * i + d * j;
    assert d * (i - j) == d * i - d * j;
    MultipleMod(d, i + j);
    MultipleMod(d, i - j);
  }

  /** Two multiples of `m` that differ do so by at least `m`. */
  lemma AlignedGap(x: int, y: int, m: int)
    requires m > 0 && x % m == 0 && y % m == 0 && x < y
    ensures x + m <= y
  {
    var i, j := x / m, y / m;
    DivMod(x, m);
    DivMod(y, m);
    if i < j {
      MulStep(m, i, j);
    } else if j < i {
      MulStep(m, j, i);
    }
  }

  /** Aligned power-of-two blocks are laminar: the smaller one lies inside the larger or apart from it. */
  lemma BlocksLaminar(x: int, a: nat, y: int, b: nat)
    requires a <= b && x % Pow2(a) == 0 && y % Pow2(b) == 0
    ensures x + Pow2(a) <= y || y + Pow2(b) <= x || (y <= x && x + Pow2(a) <= y + Pow2(b))
  {
    var m := Pow2(a);
    Pow2Divides(a, b);
    Transitive(y, Pow2(b), m);
    SumAligned(y, Pow2(b), m);
    if x < y {
      AlignedGap(x, y, m);
    } else if x < y + Pow2(b) {
      AlignedGap(x, y + Pow2(b), m);
    }
  }
}
