/** The bits of a natural number, and what arithmetic does to them. */
module Bits {
  import opened Words

  /** Bit `i`, the lowest being bit 0. */
  predicate Bit(x: nat, i: nat) {
    if i == 0 then x % 2 == 1 else Bit(x / 2, i - 1)
  }

  lemma HalfOfPow(k: nat)
    requires k > 0
    ensures Pow(2, k) == 2 * Pow(2, k - 1)
  {
  }

  lemma QuotientOfHalf(x: nat, k: nat)
    requires k > 0
    ensures Pow(2, k - 1) > 0 && Pow(2, k) > 0 && x / Pow(2, k) == (x / 2) / Pow(2, k - 1)
  {
    PowPositive(2, k - 1);
    var p := Pow(2, k - 1);
    var h := x / 2;
    DivideTwice(x, p, h / p, h % p, x % 2);
  }

  lemma DivideTwice(x: nat, p: nat, q: nat, r: nat, b: nat)
    requires p > 0 && r < p && b < 2 && x == 2 * (q * p + r) + b
    ensures x / (2 * p) == q
  {
    assert x == (2 * p) * q + (2 * r + b);
    DivisionIs(x, 2 * p, q, 2 * r + b);
  }

  lemma DivisionIs(x: nat, d: nat, q: nat, r: nat)
    requires d > 0 && r < d && x == d * q + r
    ensures x / d == q && x % d == r
  {
    var e := x / d - q;
    assert d * e == r - x % d;
    MultipleIsFar(d, e);
  }

  lemma MultipleIsFar(d: int, e: int)
    requires d > 0
    ensures (e >= 1 ==> d * e >= d) && (e <= -1 ==> d * e <= -d)
  {
  }

  /** Bit `i` is the parity of the quotient by 2 to the power of `i`. */
  lemma {:induction false} BitIsQuotient(x: nat, i: nat)
    ensures Pow(2, i) > 0 && (Bit(x, i) <==> (x / Pow(2, i)) % 2 == 1)
  {
    PowPositive(2, i);
    if i > 0 {
      BitIsQuotient(x / 2, i - 1);
      QuotientOfHalf(x, i);
    }
  }

  lemma {:induction false} ZeroBits(i: nat)
    ensures !Bit(0, i)
  {
    if i > 0 {
      ZeroBits(i - 1);
    }
  }

  lemma {:induction false} AndBits(x: nat, y: nat, i: nat)
    ensures Bit(BitAnd(x, y), i) <==> Bit(x, i) && Bit(y, i)
  {
    if x == 0 || y == 0 {
      ZeroBits(i);
    } else if i > 0 {
      AndBits(x / 2, y / 2, i - 1);
    }
  }

  lemma {:induction false} OrBits(x: nat, y: nat, i: nat)
    ensures Bit(BitOr(x, y), i) <==> Bit(x, i) || Bit(y, i)
  {
    if x == 0 || y == 0 {
      ZeroBits(i);
    } else if i > 0 {
      OrBits(x / 2, y / 2, i - 1);
    }
  }

  lemma {:induction false} XorBits(x: nat, y: nat, i: nat)
    ensures Bit(BitXor(x, y), i) <==> Bit(x, i) != Bit(y, i)
  {
    if x == 0 || y == 0 {
      ZeroBits(i);
    } else if i > 0 {
      XorBits(x / 2, y / 2, i - 1);
    }
  }

  /** The complement on `k` bits. */
  lemma {:induction false} NotBits(x: nat, k: nat, i: nat)
    requires i < k && x < Pow(2, k)
    ensures Bit(Pow(2, k) - 1 - x, i) <==> !Bit(x, i)
  {
    var h := Pow(2, k - 1);
    assert (2 * h - 1 - x) / 2 == h - 1 - x / 2;
    if i > 0 {
      NotBits(x / 2, k - 1, i - 1);
    }
  }

  lemma {:induction false} ProductBits(x: nat, k: nat, i: nat)
    ensures Bit(x * Pow(2, k), i) <==> i >= k && Bit(x, i - k)
  {
    if k > 0 {
      var p := Pow(2, k - 1);
      EvenProduct(x, p);
      if i > 0 {
        ProductBits(x, k - 1, i - 1);
      }
    }
  }

  lemma EvenProduct(x: nat, p: nat)
    ensures x * (2 * p) % 2 == 0 && x * (2 * p) / 2 == x * p
  {
    assert x * (2 * p) == 2 * (x * p);
  }

  lemma {:induction false} QuotientBits(x: nat, k: nat, i: nat)
    ensures Pow(2, k) > 0 && (Bit(x / Pow(2, k), i) <==> Bit(x, i + k))
  {
    PowPositive(2, k);
    if k > 0 {
      QuotientOfHalf(x, k);
      QuotientBits(x / 2, k - 1, i);
    }
  }

  /** The low `k` bits stay, and there are no others. */
  lemma {:induction false} RemainderBits(x: nat, k: nat, i: nat)
    ensures Pow(2, k) > 0 && (Bit(x % Pow(2, k), i) <==> i < k && Bit(x, i))
  {
    PowPositive(2, k);
    if k == 0 {
      ZeroBits(i);
    } else {
      RemainderOfHalf(x, Pow(2, k - 1), x / 2 / Pow(2, k - 1), x / 2 % Pow(2, k - 1));
      if i > 0 {
        RemainderBits(x / 2, k - 1, i - 1);
      }
    }
  }

  lemma RemainderOfHalf(x: nat, p: nat, q: nat, r: nat)
    requires p > 0 && r < p && x / 2 == q * p + r
    ensures (x % (2 * p)) / 2 == r && (x % (2 * p)) % 2 == x % 2
  {
    assert x == (2 * p) * q + (2 * r + x % 2);
    DivisionIs(x, 2 * p, q, 2 * r + x % 2);
  }

  lemma HighBits(x: nat, k: nat, i: nat)
    requires x < Pow(2, k) && i >= k
    ensures !Bit(x, i)
  {
    RemainderBits(x, k, i);
    SmallRemainder(x, Pow(2, k));
  }

  lemma SmallRemainder(x: nat, d: nat)
    requires x < d
    ensures x % d == x && x / d == 0
  {
  }
}
