/**
 * Integers as two's complement bit strings: the bitwise operators of JavaScript's BigInt, the fields they
 * select and replace, and 64-bit words.
 */
module Words {

  function Pow2(n: nat): (p: nat)
    ensures p > 0
  {
    if n == 0 then 1 else 2 * Pow2(n - 1)
  }

  function Abs(n: int): nat {
    if n < 0 then -n else n
  }

  /** No binary digit differs from the sign: zero, or minus one. */
  predicate Uniform(n: int) {
    n == 0 || n == -1
  }

  function And(a: int, b: int): int
    decreases Abs(a) + Abs(b)
  {
    if Uniform(a) && Uniform(b) then if a == -1 && b == -1 then -1 else 0
    else 2 * And(a / 2, b / 2) + if a % 2 == 1 && b % 2 == 1 then 1 else 0
  }

  function Or(a: int, b: int): int
    decreases Abs(a) + Abs(b)
  {
    if Uniform(a) && Uniform(b) then if a == -1 || b == -1 then -1 else 0
    else 2 * Or(a / 2, b / 2) + if a % 2 == 1 || b % 2 == 1 then 1 else 0
  }

  function Not(a: int): int {
    -a - 1
  }

  function ShiftLeft(a: int, k: nat): int {
    a * Pow2(k)
  }

  /** Arithmetic shift: floor division, for negative numbers too. */
  function ShiftRight(a: int, k: nat): int {
    a / Pow2(k)
  }

  /** The `width` binary digits of `x` from position `k` on. */
  function Field(x: int, k: nat, width: nat): (f: nat)
    ensures f < Pow2(width)
  {
    x / Pow2(k) % Pow2(width)
  }

  /** `x` with that field replaced. */
  function Replaced(x: int, k: nat, width: nat, value: nat): int {
    x - Field(x, k, width) * Pow2(k) + value * Pow2(k)
  }

  // ---------------------------------------------------------------------------------------------
  // Division by powers of two
  // ---------------------------------------------------------------------------------------------

  lemma DivideUnique(x: int, q: int, d: int, r: int)
    requires d > 0 && x == q * d + r && 0 <= r < d
    ensures x / d == q && x % d == r
  {
    var q' := x / d;
    assert x == q' * d + x % d;
    assert (q - q') * d == x % d - r;
    SmallMultiple(q - q', d);
  }

  lemma SmallMultiple(k: int, d: int)
    requires d > 0 && -d < k * d < d
    ensures k == 0
  {
    if k >= 1 {
      MultiplyMonotone(1, k, d);
    } else if k <= -1 {
      MultiplyMonotone(k, -1, d);
    }
  }

  lemma MultiplyMonotone(m: int, n: int, p: int)
    requires m <= n && p >= 0
    ensures m * p <= n * p
  {
    assert (n - m) * p >= 0;
  }

  lemma TwiceProduct(m: int, n: int)
    ensures 2 * (m * n) == (2 * m) * n
  {
  }

  lemma {:induction false} Pow2Sum(a: nat, b: nat)
    ensures Pow2(a + b) == Pow2(a) * Pow2(b)
  {
    if a > 0 {
      Pow2Sum(a - 1, b);
      assert Pow2(a + b) == 2 * Pow2(a - 1 + b) && Pow2(a) == 2 * Pow2(a - 1);
      hide Pow2;
      TwiceProduct(Pow2(a - 1), Pow2(b));
    }
  }

  lemma {:induction false} Pow2Monotone(a: nat, b: nat)
    requires a <= b
    ensures Pow2(a) <= Pow2(b)
  {
    Pow2Sum(a, b - a);
    assert Pow2(a) * (Pow2(b - a) - 1) >= 0;
  }

  lemma DivideProduct(x: int, p: int, q: int)
    requires p > 0 && q > 0
    ensures p * q > 0
    ensures x / (p * q) == x / p / q
    ensures x % (p * q) == x / p % q * p + x % p
  {
    var a, lo := x / p, x % p;
    var hi, mid := a / q, a % q;
    assert x == a * p + lo && a == hi * q + mid;
    DivideParts(x, p, q, a, lo, hi, mid);
  }

  lemma DivideParts(x: int, p: int, q: int, a: int, lo: int, hi: int, mid: int)
    requires p > 0 && q > 0 && x == a * p + lo && 0 <= lo < p && a == hi * q + mid && 0 <= mid < q
    ensures p * q > 0 && x / (p * q) == hi && x % (p * q) == mid * p + lo
  {
    var d := p * q;
    ProductBelow(mid, q, p);
    MultiplyMonotone(1, p, q);
    Recompose(hi, q, mid, p, lo);
    DivideUnique(x, hi, d, mid * p + lo);
  }

  lemma Recompose(hi: int, q: int, mid: int, p: int, lo: int)
    ensures (hi * q + mid) * p + lo == hi * (p * q) + (mid * p + lo)
  {
    assert (hi * q + mid) * p == (hi * q) * p + mid * p;
    assert (hi * q) * p == hi * (p * q);
  }

  /** Dividing twice: by 2^a and then by 2^b. */
  lemma DivideTwice(x: int, a: nat, b: nat)
    ensures x / Pow2(a + b) == x / Pow2(a) / Pow2(b)
    ensures x % Pow2(a + b) == x / Pow2(a) % Pow2(b) * Pow2(a) + x % Pow2(a)
  {
    hide Pow2;
    Pow2Sum(a, b);
    DivideProduct(x, Pow2(a), Pow2(b));
  }

  lemma ProductBelow(m: int, q: int, p: int)
    requires 0 <= m < q && p > 0
    ensures 0 <= m * p <= (q - 1) * p == q * p - p == p * q - p
  {
    MultiplyMonotone(0, m, p);
    MultiplyMonotone(m, q - 1, p);
  }

  lemma ShiftHalves(m: int, k: nat)
    requires k > 0
    ensures m * Pow2(k) == 2 * (m * Pow2(k - 1))
  {
    var p := Pow2(k - 1);
    assert m * (2 * p) == 2 * (m * p);
  }

  // ---------------------------------------------------------------------------------------------
  // What the bitwise operators do to a field
  // ---------------------------------------------------------------------------------------------

  lemma {:induction false} AndZero(x: int)
    ensures And(x, 0) == 0
    decreases Abs(x)
  {
    if !Uniform(x) {
      AndZero(x / 2);
    }
  }

  lemma {:induction false} AndOnes(x: int)
    ensures And(x, -1) == x
    decreases Abs(x)
  {
    if !Uniform(x) {
      AndOnes(x / 2);
      assert -1 / 2 == -1;
    }
  }

  lemma {:induction false} OrZero(x: int)
    ensures Or(x, 0) == x
    decreases Abs(x)
  {
    if !Uniform(x) {
      OrZero(x / 2);
    }
  }

  /** `x & mask` is the lowest field. */
  lemma {:induction false} AndMask(x: int, width: nat)
    ensures And(x, Pow2(width) - 1) == x % Pow2(width)
    decreases width
  {
    if width == 0 {
      AndZero(x);
    } else {
      var m := Pow2(width - 1);
      AndMask(x / 2, width - 1);
      assert (2 * m - 1) / 2 == m - 1 && (2 * m - 1) % 2 == 1;
      HalveModulo(x, width);
    }
  }

  lemma HalveModulo(x: int, width: nat)
    requires width > 0
    ensures x % Pow2(width) == 2 * (x / 2 % Pow2(width - 1)) + x % 2
  {
    assert Pow2(1) == 2 * Pow2(0) == 2;
    DivideTwice(x, 1, width - 1);
  }

  lemma HalveField(x: int, k: nat, width: nat)
    requires k > 0
    ensures Field(x, k, width) == Field(x / 2, k - 1, width)
  {
    assert Pow2(1) == 2 * Pow2(0) == 2;
    DivideTwice(x, 1, k - 1);
  }

  lemma {:induction false} AndClearsLow(x: int, width: nat)
    ensures And(x, Not(Pow2(width) - 1)) == x - x % Pow2(width)
    decreases width
  {
    if width == 0 {
      AndOnes(x);
    } else {
      var m := Pow2(width - 1);
      AndClearsLow(x / 2, width - 1);
      assert Not(2 * m - 1) / 2 == Not(m - 1) && Not(2 * m - 1) % 2 == 0;
      HalveModulo(x, width);
    }
  }

  /** `x & ~(mask << k)` clears the field at `k`. */
  lemma {:induction false} AndClearsField(x: int, k: nat, width: nat)
    requires width > 0
    ensures And(x, Not(ShiftLeft(Pow2(width) - 1, k))) == x - Field(x, k, width) * Pow2(k)
    decreases k
  {
    var m := Pow2(width) - 1;
    if k == 0 {
      AndClearsLow(x, width);
    } else {
      AndClearsField(x / 2, k - 1, width);
      HalveField(x, k, width);
      ShiftHalves(m, k);
      ShiftHalves(Field(x, k, width), k);
      MultiplyMonotone(1, m, Pow2(k - 1));
      AndHalves(x, m * Pow2(k - 1));
    }
  }

  lemma AndHalves(x: int, n: int)
    requires n >= 1
    ensures And(x, Not(2 * n)) == 2 * And(x / 2, Not(n)) + x % 2
  {
    assert Not(2 * n) / 2 == Not(n) && Not(2 * n) % 2 == 1;
  }

  lemma {:induction false} OrFillsLow(c: int, value: nat, width: nat)
    requires value < Pow2(width) && c % Pow2(width) == 0
    ensures Or(c, value) == c + value
    decreases width
  {
    if width == 0 {
      OrZero(c);
    } else if Uniform(c) && Uniform(value) {
      if c == -1 {
        DivideUnique(-1, -1, Pow2(width), Pow2(width) - 1);
      }
    } else {
      HalveModulo(c, width);
      OrFillsLow(c / 2, value / 2, width - 1);
    }
  }

  /** `c | (value << k)` fills a cleared field. */
  lemma {:induction false} OrFillsField(c: int, k: nat, width: nat, value: nat)
    requires value < Pow2(width) && Field(c, k, width) == 0
    ensures Or(c, ShiftLeft(value, k)) == c + value * Pow2(k)
    decreases k
  {
    if k == 0 {
      OrFillsLow(c, value, width);
    } else if value == 0 {
      OrZero(c);
    } else {
      HalveField(c, k, width);
      OrFillsField(c / 2, k - 1, width, value);
      ShiftHalves(value, k);
      MultiplyMonotone(1, value, Pow2(k - 1));
      OrHalves(c, value * Pow2(k - 1));
    }
  }

  lemma OrHalves(c: int, n: int)
    requires n >= 1
    ensures Or(c, 2 * n) == 2 * Or(c / 2, n) + c % 2
  {
  }

  // ---------------------------------------------------------------------------------------------
  // Replacing a field
  // ---------------------------------------------------------------------------------------------

  /** A number as what lies above a field, the field, and what lies below it. */
  lemma Parts(x: int, k: nat, width: nat)
    ensures x == x / Pow2(k + width) * Pow2(k + width) + Field(x, k, width) * Pow2(k) + x % Pow2(k)
    ensures 0 <= Field(x, k, width) * Pow2(k) + x % Pow2(k) < Pow2(k + width)
  {
    DivideTwice(x, k, width);
  }

  lemma ReplacedParts(x: int, k: nat, width: nat, value: nat)
    requires value < Pow2(width)
    ensures var y := Replaced(x, k, width, value);
            && y / Pow2(k + width) == x / Pow2(k + width)
            && Field(y, k, width) == value
            && y % Pow2(k) == x % Pow2(k)
  {
    var y, p := Replaced(x, k, width, value), Pow2(k);
    Parts(x, k, width);
    Pow2Sum(k, width);
    ProductBelow(value, Pow2(width), p);
    assert Pow2(width) * p == Pow2(k + width);
    DivideUnique(y, x / Pow2(k + width), Pow2(k + width), value * p + x % p);
    DivideTwice(y, k, width);
    var f := Field(y, k, width);
    assert f * p + y % p == value * p + x % p;
    DivideUnique(f * p + y % p, f, p, y % p);
    DivideUnique(f * p + y % p, value, p, x % p);
  }

  /** Every field that does not overlap the replaced one keeps its digits; so in particular does every other bit. */
  lemma ReplacedElsewhere(x: int, k: nat, width: nat, value: nat, j: nat, w: nat)
    requires value < Pow2(width)
    requires j + w <= k || k + width <= j
    ensures Field(Replaced(x, k, width, value), j, w) == Field(x, j, w)
  {
    var y := Replaced(x, k, width, value);
    ReplacedParts(x, k, width, value);
    if k + width <= j {
      DivideTwice(x, k + width, j - k - width);
      DivideTwice(y, k + width, j - k - width);
    } else {
      FieldBelow(x, k, j, w);
      FieldBelow(y, k, j, w);
    }
  }

  /** A field is determined by the digits below any position at or above its end. */
  lemma FieldBelow(x: int, k: nat, j: nat, w: nat)
    requires j + w <= k
    ensures Field(x, j, w) == Field(x % Pow2(k), j, w)
  {
    var r, d := x % Pow2(k), k - j - w;
    DivideTwice(x, j, w + d);
    DivideTwice(x / Pow2(j), w, d);
    // x % 2^k == (x / 2^j % 2^(w+d)) * 2^j + x % 2^j
    var t := x / Pow2(j) % Pow2(w + d);
    assert j + (w + d) == k;
    DivideUnique(r, t, Pow2(j), x % Pow2(j));
    // t == (... ) * 2^w + x / 2^j % 2^w
    DivideUnique(t, x / Pow2(j) / Pow2(w) % Pow2(d), Pow2(w), x / Pow2(j) % Pow2(w));
  }

  lemma ReplacedInRange(x: int, k: nat, width: nat, value: nat, total: nat)
    requires value < Pow2(width) && k + width <= total && 0 <= x < Pow2(total)
    ensures 0 <= Replaced(x, k, width, value) < Pow2(total)
  {
    hide Replaced, Pow2, Field;
    var y := Replaced(x, k, width, value);
    ReplacedParts(x, k, width, value);
    DivideTwice(x, k + width, total - k - width);
    DivideTwice(y, k + width, total - k - width);
    DivideUnique(x, 0, Pow2(total), x);
    assert y / Pow2(total) == 0;
    assert y == 0 * Pow2(total) + y % Pow2(total);
  }

  // ---------------------------------------------------------------------------------------------
  // 64-bit words
  // ---------------------------------------------------------------------------------------------

  const TWO64 := 0x1_0000_0000_0000_0000
  const TWO63 := 0x8000_0000_0000_0000

  predicate IsInt64(n: int) {
    -TWO63 <= n < TWO63
  }

  /** BigInt.asUintN(64, n) */
  function AsUint64(n: int): (u: nat)
    ensures u < TWO64
  {
    n % TWO64
  }

  /** BigInt.asIntN(64, n) */
  function AsInt64(n: int): (w: int)
    ensures IsInt64(w)
  {
    var u := n % TWO64;
    if u >= TWO63 then u - TWO64 else u
  }

  lemma WordRoundTrip(n: int)
    ensures AsUint64(AsInt64(n)) == AsUint64(n)
    ensures AsInt64(AsUint64(n)) == AsInt64(n)
    ensures IsInt64(n) ==> AsInt64(n) == n
  {
  }

  /** A power from its square root. */
  lemma SquaredPower(k: nat, p: int)
    requires Pow2(k) == p
    ensures Pow2(2 * k) == p * p
  {
    hide Pow2;
    Pow2Sum(k, k);
  }

  lemma FourthPower()
    ensures Pow2(4) == 16
  {
    assert Pow2(1) == 2;
    hide Pow2;
    SquaredPower(1, 2);
    SquaredPower(2, 4);
  }

  lemma PowersOfTwo()
    ensures Pow2(4) == 16 && Pow2(16) == 0x1_0000 && Pow2(32) == 0x1_0000_0000 && Pow2(64) == TWO64
  {
    hide Pow2;
    FourthPower();
    SquaredPower(4, 16);
    SquaredPower(8, 256);
    SquaredPower(16, 0x1_0000);
    SquaredPower(32, 0x1_0000_0000);
  }
}
