/**
 Congruence of integers, powers of two, and what powers of odd numbers are
 modulo powers of two.
 */
module Congruence {
  import opened Words

  predicate Cong(a: int, b: int, m: nat)
    requires m > 0
  {
    (a - b) % m == 0
  }

  lemma MultipleBounds(k: int, m: nat)
    ensures k >= 1 ==> k * m >= m
    ensures k <= -1 ==> k * m <= -(m as int)
  {
    if k >= 1 {
      assert k * m == m + (k - 1) * m;
    }
    if k <= -1 {
      assert k * m == -(m as int) + (k + 1) * m;
      assert (-(k + 1)) * m >= 0;
    }
  }

  lemma MultipleIsZero(q: int, m: nat)
    requires m > 0
    ensures (q * m) % m == 0
  {
    var k := q - (q * m) / m;
    assert k * m == (q * m) % m;
    MultipleBounds(k, m);
  }

  /** A multiple of the modulus between the two makes them congruent. */
  lemma CongBy(a: int, b: int, q: int, m: nat)
    requires m > 0 && a == b + q * m
    ensures Cong(a, b, m)
  {
    MultipleIsZero(q, m);
  }

  lemma Quotient(a: int, b: int, m: nat) returns (q: int)
    requires m > 0 && Cong(a, b, m)
    ensures a == b + q * m
  {
    q := (a - b) / m;
    assert a - b == m * q;
  }

  lemma CongSymmetric(a: int, b: int, m: nat)
    requires m > 0 && Cong(a, b, m)
    ensures Cong(b, a, m)
  {
    var q := Quotient(a, b, m);
    CongBy(b, a, -q, m);
  }

  lemma CongTransitive(a: int, b: int, c: int, m: nat)
    requires m > 0 && Cong(a, b, m) && Cong(b, c, m)
    ensures Cong(a, c, m)
  {
    var p := Quotient(a, b, m);
    var q := Quotient(b, c, m);
    assert (p + q) * m == p * m + q * m;
    CongBy(a, c, p + q, m);
  }

  lemma CongProduct(a: int, b: int, c: int, d: int, m: nat)
    requires m > 0 && Cong(a, b, m) && Cong(c, d, m)
    ensures Cong(a * c, b * d, m)
  {
    var p := Quotient(a, b, m);
    var q := Quotient(c, d, m);
    calc {
      a * c;
      (b + p * m) * c;
      b * c + p * m * c;
      b * (d + q * m) + p * m * c;
      b * d + (b * q + p * c) * m;
    }
    CongBy(a * c, b * d, b * q + p * c, m);
  }

  lemma {:induction false} CongPower(a: nat, b: nat, n: nat, m: nat)
    requires m > 0 && Cong(a, b, m)
    ensures Cong(Pow(a, n), Pow(b, n), m)
  {
    if n > 0 {
      CongPower(a, b, n - 1, m);
      CongProduct(a, b, Pow(a, n - 1), Pow(b, n - 1), m);
    }
  }

  /** Numbers are congruent exactly when their remainders agree. */
  lemma SameRemainder(a: nat, b: nat, m: nat)
    requires m > 0
    ensures a % m == b % m <==> Cong(a, b, m)
  {
    var p, q := a / m, b / m;
    if a % m == b % m {
      assert a - b == (p - q) * m;
      CongBy(a, b, p - q, m);
    }
    if Cong(a, b, m) {
      var k := Quotient(a, b, m);
      assert a % m - b % m == (k - p + q) * m;
      NoMultipleBetween(a % m - b % m, k - p + q, m);
    }
  }

  lemma NoMultipleBetween(x: int, k: int, m: nat)
    requires m > 0 && x == k * m && -(m as int) < x < m
    ensures x == 0
  {
    MultipleBounds(k, m);
  }

  // ---- Powers ----

  lemma {:induction false} PowOfPow(x: nat, n: nat, t: nat)
    ensures Pow(x, n * t) == Pow(Pow(x, n), t)
  {
    if t > 0 {
      PowOfPow(x, n, t - 1);
      assert n * t == n + n * (t - 1);
      PowAdd(x, n, n * (t - 1));
    }
  }

  lemma {:induction false} PowOfProduct(p: nat, q: nat, n: nat)
    ensures Pow(p * q, n) == Pow(p, n) * Pow(q, n)
  {
    if n > 0 {
      PowOfProduct(p, q, n - 1);
      Interchange(p, q, Pow(p, n - 1), Pow(q, n - 1));
    }
  }

  lemma Interchange(p: int, q: int, a: int, b: int)
    ensures (p * q) * (a * b) == (p * a) * (q * b)
  {
    assert (p * q) * (a * b) == p * (q * (a * b));
    assert q * (a * b) == a * (q * b);
    assert p * (a * (q * b)) == (p * a) * (q * b);
  }

  lemma {:induction false} OneToAny(n: nat)
    ensures Pow(1, n) == 1
  {
    if n > 0 {
      OneToAny(n - 1);
    }
  }

  lemma {:induction false} OddPower(x: nat, n: nat)
    requires x % 2 == 1
    ensures Pow(x, n) % 2 == 1
  {
    if n > 0 {
      OddPower(x, n - 1);
      OddProduct(x, Pow(x, n - 1));
    }
  }

  lemma OddProduct(x: nat, y: nat)
    ensures (x * y) % 2 == 1 <==> x % 2 == 1 && y % 2 == 1
  {
    var a, b := x / 2, y / 2;
    assert x == 2 * a + x % 2 && y == 2 * b + y % 2;
    assert x * y == 2 * (2 * a * b + a * (y % 2) + b * (x % 2)) + (x % 2) * (y % 2);
  }

  function TwoTo(k: nat): (p: nat)
    ensures p > 0
  {
    if k == 0 then 1 else 2 * TwoTo(k - 1)
  }

  lemma {:induction false} TwoToIsPow(k: nat)
    ensures TwoTo(k) == Pow(2, k)
  {
    if k > 0 {
      TwoToIsPow(k - 1);
    }
  }

  lemma {:induction false} TwoToSum(j: nat, k: nat)
    ensures TwoTo(j + k) == TwoTo(j) * TwoTo(k)
  {
    if k > 0 {
      TwoToSum(j, k - 1);
    }
  }

  lemma {:induction false} TwoToGrows(j: nat, k: nat)
    requires j <= k
    ensures TwoTo(j) <= TwoTo(k)
  {
    if j < k {
      TwoToGrows(j, k - 1);
    }
  }

  lemma {:induction false} BelowTwoTo(k: nat)
    ensures k < TwoTo(k)
  {
    if k > 0 {
      BelowTwoTo(k - 1);
    }
  }

  /** An odd factor does not help a power of two to divide. */
  lemma {:induction false} OddFactorDrops(z: nat, v: int, j: nat)
    requires z % 2 == 1 && (z * v) % TwoTo(j) == 0
    ensures v % TwoTo(j) == 0
    decreases j
  {
    if j > 0 {
      var p := TwoTo(j - 1);
      var r := (z * v) / (2 * p);
      assert z * v == 2 * (p * r);
      var h := EvenHalf(z, v, p * r);
      MultipleIsZero(r, p);
      assert r * p == z * h;
      OddFactorDrops(z, h, j - 1);
      var s := h / p;
      assert h == p * s;
      assert v == s * (2 * p);
      MultipleIsZero(s, 2 * p);
    }
  }

  lemma EvenHalf(z: nat, v: int, w: int) returns (h: int)
    requires z % 2 == 1 && z * v == 2 * w
    ensures v == 2 * h && z * h == w
  {
    h := v / 2;
    var a := z / 2;
    assert z * v == 2 * (a * v) + v;
    assert v % 2 == 0;
    assert z * (2 * h) == 2 * (z * h);
  }

  /** For odd `x`, raising to a power of two reaches 1 one bit faster than the exponent. */
  lemma {:induction false} OddToTwoTo(x: nat, k: nat)
    requires x % 2 == 1
    ensures Cong(Pow(x, TwoTo(k)), 1, TwoTo(k + 1))
  {
    if k == 0 {
      assert Pow(x, 1) == x * Pow(x, 0) == x;
      CongBy(x, 1, x / 2, 2);
    } else {
      OddToTwoTo(x, k - 1);
      var p, z := TwoTo(k), Pow(x, TwoTo(k - 1));
      var q := Quotient(z, 1, p);
      PowSquare(x, TwoTo(k - 1), z);
      SquareNearOne(q, TwoTo(k - 1));
      CongBy(z * z, 1, q + q * q * TwoTo(k - 1), 2 * p);
    }
  }

  lemma SquareNearOne(q: int, h: int)
    ensures (1 + q * (2 * h)) * (1 + q * (2 * h)) == 1 + (q + q * q * h) * (2 * (2 * h))
  {
    var w := q * h;
    assert q * (2 * h) == 2 * w;
    assert q * q * h == q * w;
    assert (q * w) * (4 * h) == 4 * w * w;
    assert q * (4 * h) == 4 * w;
    assert (q + q * w) * (4 * h) == q * (4 * h) + (q * w) * (4 * h);
  }

  /** Moving an odd base by a multiple of 2^k moves its n-th power by n times as much, modulo 2^(k+1). */
  lemma {:induction false} MovedPower(x: nat, k: nat, t: nat, n: nat)
    requires x % 2 == 1 && k >= 1
    ensures Cong(Pow(x + TwoTo(k) * t, n), Pow(x, n) + n * (TwoTo(k) * t), TwoTo(k + 1))
  {
    var m, s := TwoTo(k + 1), TwoTo(k) * t;
    if n == 0 {
      CongBy(1, 1, 0, m);
    } else {
      MovedPower(x, k, t, n - 1);
      var a, b := Pow(x + s, n - 1), Pow(x, n - 1);
      CongBy(x + s, x + s, 0, m);
      CongProduct(x + s, x + s, a, b + (n - 1) * s, m);
      OddPower(x, n - 1);
      MovedStep(x, b, k, t, n - 1);
      CongTransitive((x + s) * a, (x + s) * (b + (n - 1) * s), x * b + n * s, m);
    }
  }

  lemma MovedStep(x: nat, b: nat, k: nat, t: nat, n: nat)
    requires x % 2 == 1 && b % 2 == 1 && k >= 1
    ensures var s := TwoTo(k) * t; Cong((x + s) * (b + n * s), x * b + (n + 1) * s, TwoTo(k + 1))
  {
    var h, c, d := TwoTo(k - 1), x / 2, b / 2;
    MovedAlgebra(c, d, n, t, h);
    CongBy((x + TwoTo(k) * t) * (b + n * (TwoTo(k) * t)), x * b + (n + 1) * (TwoTo(k) * t),
      c * n * t + d * t + n * t * t * h, TwoTo(k + 1));
  }

  lemma MovedAlgebra(c: int, d: int, n: int, t: int, h: int)
    ensures var s, x, b := 2 * h * t, 2 * c + 1, 2 * d + 1;
      (x + s) * (b + n * s) == x * b + (n + 1) * s + (c * n * t + d * t + n * t * t * h) * (2 * (2 * h))
  {
    var s, x, b := 2 * h * t, 2 * c + 1, 2 * d + 1;
    var v := h * t;
    assert (x + s) * (b + n * s) == x * b + x * (n * s) + s * b + s * (n * s);
    assert x * (n * s) == 2 * c * (n * s) + n * s;
    assert s * b == 2 * d * s + s;
    assert c * (n * s) == c * n * (2 * v);
    assert (c * n * t) * (4 * h) == 4 * (c * n * v);
    assert (d * t) * (4 * h) == 4 * (d * v);
    assert (n * t * t * h) * (4 * h) == 4 * (n * v * v);
    assert s * (n * s) == 4 * (n * v * v);
  }
}
