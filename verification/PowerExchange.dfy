/** When EXP does not care about the order of its operands. */
module PowerExchange {
  import opened Words
  import opened Opcodes
  import opened Congruence
  import opened Exchange
  import Evm

  function OddPart(x: nat): (u: nat)
    requires x > 0
    ensures u % 2 == 1
  {
    if x % 2 == 0 then OddPart(x / 2) else x
  }

  lemma {:induction false} Factored(x: nat)
    requires x > 0
    ensures x == TwoTo(Twos(x)) * OddPart(x)
    ensures Twos(x) >= 1 <==> x % 2 == 0
  {
    if x % 2 == 0 {
      Factored(x / 2);
      TwiceProduct(TwoTo(Twos(x / 2)), OddPart(x / 2));
    }
  }

  lemma TwiceProduct(a: nat, b: nat)
    ensures (2 * a) * b == 2 * (a * b)
  {
  }

  /** The word of 2^m * o. */
  function Scaled(m: nat, o: nat): Word {
    Wrap(TwoTo(m) * o)
  }

  lemma PowerFactored(x: nat, n: nat)
    requires x > 0
    ensures Wrap(Pow(x, n)) == Scaled(Twos(x) * n, Pow(OddPart(x), n))
    ensures Pow(OddPart(x), n) % 2 == 1
  {
    hide Wrap, TwoTo, Pow, Twos, OddPart;
    var a, u := Twos(x), OddPart(x);
    Factored(x);
    PowOfProduct(TwoTo(a), u, n);
    TwoToIsPow(a);
    TwoToIsPow(a * n);
    PowOfPow(2, a, n);
    OddPower(u, n);
  }

  lemma ModulusIsTwoTo()
    ensures MODULUS == TwoTo(256)
  {
    hide TwoTo, Pow;
    TwoToIsPow(256);
    PowerOfTwo256();
  }

  // ---- Operands of different parity ----

  lemma ParityShows(p: nat, q: nat)
    requires Wrap(p) == Wrap(q)
    ensures p % 2 == q % 2
  {
    assert p == MODULUS * (p / MODULUS) + Wrap(p);
    assert q == MODULUS * (q / MODULUS) + Wrap(q);
  }

  lemma PowerParity(x: nat, n: nat)
    requires n > 0
    ensures Pow(x, n) % 2 == x % 2
  {
    hide Pow;
    if x % 2 == 1 {
      OddPower(x, n);
    } else {
      EvenFactor(x, n);
      OddProduct(x, Pow(x, n - 1));
    }
  }

  lemma EvenFactor(x: nat, n: nat)
    requires n > 0
    ensures Pow(x, n) == x * Pow(x, n - 1)
  {
  }

  // ---- Odd operands ----

  lemma CongWeaker(a: int, b: int, k: nat)
    requires Cong(a, b, TwoTo(k + 1))
    ensures Cong(a, b, TwoTo(k))
  {
    var q := Quotient(a, b, TwoTo(k + 1));
    CongBy(a, b, q * 2, TwoTo(k));
  }

  /** A bigger exponent by a multiple of 2^k leaves an odd power alone, modulo 2^(k+1). */
  lemma MovedExponent(x: nat, k: nat, t: nat)
    requires x % 2 == 1
    ensures Cong(Pow(x, x + TwoTo(k) * t), Pow(x, x), TwoTo(k + 1))
  {
    hide *;
    var m := TwoTo(k + 1);
    var z := Pow(x, TwoTo(k));
    PowAdd(x, x, TwoTo(k) * t);
    PowOfPow(x, TwoTo(k), t);
    OddToTwoTo(x, k);
    CongPower(z, 1, t, m);
    OneToAny(t);
    CongBy(Pow(x, x), Pow(x, x), 0, m);
    CongProduct(Pow(x, x), Pow(x, x), Pow(z, t), 1, m);
  }

  lemma HalfMultiple(x: nat, k: nat, t: nat)
    requires x % 2 == 1 && Cong(x * (TwoTo(k) * t), 0, TwoTo(k + 1))
    ensures t % 2 == 0
  {
    var p := TwoTo(k);
    var q := Quotient(x * (p * t), 0, 2 * p);
    Cancel(x * t, 2 * q, p) by {
      assert (x * t) * p == x * (p * t);
      assert (2 * q) * p == q * (2 * p);
    }
    OddProduct(x, t);
  }

  /** Odd operands whose powers agree modulo 2^k agree modulo 2^k themselves. */
  lemma {:induction false} OddPowersAgree(x: nat, y: nat, k: nat)
    requires x % 2 == 1 && y % 2 == 1 && x <= y && Cong(Pow(x, y), Pow(y, x), TwoTo(k))
    ensures Cong(y, x, TwoTo(k))
  {
    hide Pow, TwoTo, Cong;
    if k <= 1 {
      OddDifference(x, y, k);
    } else {
      CongWeaker(Pow(x, y), Pow(y, x), k - 1);
      OddPowersAgree(x, y, k - 1);
      var p := TwoTo(k - 1);
      var t := Quotient(y, x, p);
      NotBelow(t, p);
      OddStep(x, k - 1, t);
      CongBy(y, x, t / 2, TwoTo(k)) by { TwoToIsDouble(k - 1); assert (t / 2) * (2 * p) == t * p; }
    }
  }

  lemma TwoToIsDouble(k: nat)
    ensures TwoTo(k + 1) == 2 * TwoTo(k)
  {
  }

  lemma NotBelow(t: int, p: nat)
    requires p > 0 && t * p >= 0
    ensures t >= 0
  {
    MultipleBounds(t, p);
  }

  lemma OddDifference(x: nat, y: nat, k: nat)
    requires x % 2 == 1 && y % 2 == 1 && k <= 1
    ensures Cong(y, x, TwoTo(k))
  {
    assert TwoTo(1) == 2;
  }

  lemma OddStep(x: nat, k: nat, t: nat)
    requires x % 2 == 1 && k >= 1
    requires Cong(Pow(x, x + TwoTo(k) * t), Pow(x + TwoTo(k) * t, x), TwoTo(k + 1))
    ensures t % 2 == 0
  {
    hide *;
    var m, s := TwoTo(k + 1), TwoTo(k) * t;
    var z := Pow(x, x);
    MovedExponent(x, k, t);
    MovedPower(x, k, t, x);
    CongSymmetric(Pow(x, x + s), z, m);
    CongTransitive(z, Pow(x, x + s), Pow(x + s, x), m);
    CongTransitive(z, Pow(x + s, x), z + x * s, m);
    var q := Quotient(z, z + x * s, m);
    CongBy(x * s, 0, -q, m);
    HalfMultiple(x, k, t);
  }

  lemma OddOperands(x: Word, y: Word)
    requires x % 2 == 1 && y % 2 == 1 && Wrap(Pow(x, y)) == Wrap(Pow(y, x))
    ensures x == y
  {
    hide Pow, TwoTo, Cong;
    ModulusIsTwoTo();
    var low, high := if x <= y then x else y, if x <= y then y else x;
    SameRemainder(Pow(low, high), Pow(high, low), MODULUS);
    OddPowersAgree(low, high, 256);
    SameRemainder(high, low, MODULUS);
  }

  // ---- Even operands ----

  /** Equal words with different factors of two: the common power of two cancels. */
  lemma TwosCancel(m: nat, o: nat, n: nat, p: nat)
    requires m <= n && m < 256 && Scaled(m, o) == Scaled(n, p)
    ensures Cong(o, TwoTo(n - m) * p, TwoTo(256 - m))
  {
    hide Wrap, TwoTo, Cong;
    var a, b, c := TwoTo(m), TwoTo(n - m), TwoTo(256 - m);
    WrapIsRemainder(a * o);
    WrapIsRemainder(TwoTo(n) * p);
    ModulusIsTwoTo();
    TwoToSum(m, n - m);
    TwoToSum(m, 256 - m);
    SameRemainder(a * o, (a * b) * p, MODULUS);
    var q := Quotient(a * o, (a * b) * p, MODULUS);
    Cancel(o, b * p + q * c, a) by { CancelAlgebra(o, a, b, p, q, c); }
    CongBy(o, b * p, q, c);
  }

  lemma WrapIsRemainder(x: nat)
    ensures Wrap(x) == x % MODULUS
  {
  }

  lemma CancelAlgebra(o: int, a: int, b: int, p: int, q: int, c: int)
    ensures a * o == o * a
    ensures (a * b) * p + q * (a * c) == (b * p + q * c) * a
  {
    assert (a * b) * p == (b * p) * a;
    assert q * (a * c) == (q * c) * a;
  }

  /** A difference that an even number divides is even. */
  lemma CongParity(a: int, b: int, k: nat)
    requires k > 0 && Cong(a, b, TwoTo(k))
    ensures a % 2 == b % 2
  {
    hide TwoTo;
    var q := Quotient(a, b, TwoTo(k));
    TwoToIsDouble(k - 1);
    EvenShift(a, b, q, TwoTo(k - 1));
  }

  lemma EvenShift(a: int, b: int, q: int, h: int)
    requires a == b + q * (2 * h)
    ensures a % 2 == b % 2
  {
    assert q * (2 * h) == 2 * (q * h);
  }

  lemma EvenProduct(k: nat, p: nat)
    requires k > 0
    ensures (TwoTo(k) * p) % 2 == 0
  {
    OddProduct(TwoTo(k), p);
  }

  /** Words that do not vanish, made of a power of two and an odd factor, are equal only for the same power. */
  lemma SameTwos(m: nat, o: nat, n: nat, p: nat)
    requires m < 256 && n < 256 && o % 2 == 1 && p % 2 == 1 && Scaled(m, o) == Scaled(n, p)
    ensures m == n && Cong(o, p, TwoTo(256 - m))
  {
    hide *;
    var low, high := if m <= n then m else n, if m <= n then n else m;
    var v, w := if m <= n then o else p, if m <= n then p else o;
    TwosCancel(low, v, high, w);
    CongParity(v, TwoTo(high - low) * w, 256 - low);
    if low < high {
      EvenProduct(high - low, w);
    }
    TwoToZero();
  }

  lemma TwoToZero()
    ensures TwoTo(0) == 1
  {
  }

  lemma VanishesIff(m: nat, o: nat)
    requires o % 2 == 1
    ensures Scaled(m, o) == 0 <==> m >= 256
  {
    hide TwoTo, Cong;
    if m >= 256 {
      ModulusIsTwoTo();
      TwoToSum(256, m - 256);
      var r := TwoTo(m - 256);
      assert (MODULUS * r) * o == (r * o) * MODULUS;
      MultipleIsZero(r * o, MODULUS);
    } else if Scaled(m, o) == 0 {
      assert TwoTo(m) * 0 == 0;
      TwosCancel(m, o, m, 0);
      CongParity(o, TwoTo(0) * 0, 256 - m);
    }
  }

  /** The exponents of two in both powers can agree only for (1, 2), apart from equal operands. */
  lemma TwosMatch(a: nat, b: nat, u: nat, w: nat, x: nat, y: nat)
    requires 1 <= a < b && u % 2 == 1 && w % 2 == 1
    requires x == TwoTo(a) * u && y == TwoTo(b) * w && a * y == b * x < 256
    ensures a == 1 && b == 2 && u == w
  {
    hide TwoTo;
    SmallTwoTo();
    AtLeast(TwoTo(b), w);
    MultipleBounds(a, y);
    if b >= 8 {
      TwoToGrows(8, b);
    }
  }

  function PowerSum(x: nat, n: nat): nat {
    if n == 0 then 0 else PowerSum(x, n - 1) + Pow(x, n - 1)
  }

  lemma {:induction false} GeometricSum(x: nat, n: nat)
    requires x >= 1
    ensures Pow(x, n) - 1 == PowerSum(x, n) * (x - 1)
  {
    if n > 0 {
      GeometricSum(x, n - 1);
    }
  }

  lemma {:induction false} OddSum(x: nat, n: nat)
    requires x % 2 == 1
    ensures PowerSum(x, n) % 2 == n % 2
  {
    hide Pow;
    if n > 0 {
      OddSum(x, n - 1);
      OddPower(x, n - 1);
      NextParity(PowerSum(x, n - 1), Pow(x, n - 1), n - 1);
    }
  }

  lemma NextParity(s: nat, p: nat, n: nat)
    requires s % 2 == n % 2 && p % 2 == 1
    ensures (s + p) % 2 == (n + 1) % 2
  {
  }

  /** For odd `u`, a power of two that divides u^4u - u^2u divides u^2 - 1. */
  lemma SquareMinusOne(u: nat, j: nat)
    requires u % 2 == 1 && Cong(Pow(u, 4 * u), Pow(u, 2 * u), TwoTo(j))
    ensures (u * u - 1) % TwoTo(j) == 0
  {
    hide *;
    var z := Pow(u, 2 * u);
    PowAdd(u, 2 * u, 2 * u);
    OddPower(u, 2 * u);
    DivisibleDifference(z, TwoTo(j));
    OddFactorDrops(z, z - 1, j);
    PowSquareTwo(u);
    PowOfPow(u, 2, u);
    OddProduct(u, u);
    SquarePositive(u);
    GeometricSum(u * u, u);
    OddSum(u * u, u);
    OddFactorDrops(PowerSum(u * u, u), u * u - 1, j);
  }

  lemma SquarePositive(u: nat)
    requires u % 2 == 1
    ensures u * u >= 1
  {
    MultipleBounds(u, u);
  }

  lemma PowSquareTwo(u: nat)
    ensures Pow(u, 2) == u * u
  {
    assert Pow(u, 1) == u * Pow(u, 0);
  }

  lemma DivisibleDifference(z: nat, m: nat)
    requires m > 0 && Cong(z * z, z, m)
    ensures (z * (z - 1)) % m == 0
  {
    assert z * (z - 1) == z * z - z;
  }

  /** The odd numbers below 64 that this leaves. */
  lemma SmallOdd(u: nat)
    requires u % 2 == 1 && u < 64 && (u * u - 1) % TwoTo(256 - 4 * u) == 0
    ensures u == 1 || u == 63
  {
    hide TwoTo;
    if 1 < u < 63 {
      var m := TwoTo(256 - 4 * u);
      SmallTwoTo();
      SquareBounds(u);
      TwoToGrows(8 + 4, 256 - 4 * u);
      TwoToSum(8, 4);
    }
  }

  lemma SquareBounds(u: nat)
    requires 1 < u < 63
    ensures 0 < u * u - 1 < 4096
  {
    assert u * u <= 63 * u;
    assert u * u >= u;
  }

  lemma SquareIsOne(n: nat)
    ensures Cong(Pow(63, 2 * n), 1, 16)
  {
    hide Cong, Pow;
    PowSquareTwo(63);
    PowOfPow(63, 2, n);
    CongBy(3969, 1, 248, 16);
    CongPower(3969, 1, n, 16);
    OneToAny(n);
  }

  lemma EvenTwos(x: nat, a: nat, u: nat)
    requires u % 2 == 1 && x == TwoTo(a) * u
    ensures Twos(x) == a && (x > 0 ==> OddPart(x) == u)
    decreases a
  {
    if a > 0 {
      TwiceProduct(TwoTo(a - 1), u);
      EvenTwos(TwoTo(a - 1) * u, a - 1, u);
    }
  }

  lemma TheTwos()
    ensures Twos(2) == 1 && Twos(4) == 2 && Twos(126) == 1 && Twos(252) == 2
    ensures OddPart(126) == 63 && OddPart(252) == 63
  {
    hide OddPart, Twos;
    SmallTwoTo();
    EvenTwos(2, 1, 1);
    EvenTwos(4, 2, 1);
    EvenTwos(126, 1, 63);
    EvenTwos(252, 2, 63);
  }

  lemma TwoAndFour()
    ensures Pow(2, 4) == Pow(4, 2)
  {
  }

  /** 126 and 252 may be exchanged: both powers have 252 factors of two, and 63 squared is 1 modulo 16. */
  lemma NearlyTwoHundredFiftySix()
    ensures Wrap(Pow(126, 252)) == Wrap(Pow(252, 126))
  {
    hide *;
    TheTwos();
    PowerFactored(126, 252);
    PowerFactored(252, 126);
    SquareIsOne(126);
    SquareIsOne(63);
    NearlyEqual(Pow(63, 252), Pow(63, 126));
  }

  lemma NearlyEqual(o: nat, p: nat)
    requires Cong(o, 1, 16) && Cong(p, 1, 16)
    ensures Scaled(252, o) == Scaled(252, p)
  {
    hide Wrap, TwoTo, Cong;
    var s := TwoTo(252);
    CongSymmetric(p, 1, 16);
    CongTransitive(o, 1, p, 16);
    var q := Quotient(o, p, 16);
    ModulusIsTwoTo();
    SmallTwoTo();
    TwoToSum(252, 4);
    assert s * o == s * p + q * (s * 16) by { ScaledQuotient(s, o, p, q); }
    CongBy(s * o, s * p, q, MODULUS);
    SameRemainder(s * o, s * p, MODULUS);
    WrapIsRemainder(s * o);
    WrapIsRemainder(s * p);
  }

  lemma ScaledQuotient(s: int, o: int, p: int, q: int)
    requires o == p + q * 16
    ensures s * o == s * p + q * (s * 16)
  {
  }

  /** Even operands whose powers do not vanish, the second with more factors of two. */
  lemma UnequalTwos(x: nat, y: nat)
    requires x > 0 && y > 0 && 1 <= Twos(x) < Twos(y)
    requires Twos(x) * y < 256 && Twos(y) * x < 256 && Wrap(Pow(x, y)) == Wrap(Pow(y, x))
    ensures (x == 2 && y == 4) || (x == 126 && y == 252)
  {
    hide *;
    Factored(x);
    Factored(y);
    PowerFactored(x, y);
    PowerFactored(y, x);
    FactoredPair(x, y, Twos(x), Twos(y), OddPart(x), OddPart(y));
  }

  lemma FactoredPair(x: nat, y: nat, a: nat, b: nat, u: nat, w: nat)
    requires 1 <= a < b && u % 2 == 1 && w % 2 == 1 && x == TwoTo(a) * u && y == TwoTo(b) * w
    requires a * y < 256 && b * x < 256 && Pow(u, y) % 2 == 1 && Pow(w, x) % 2 == 1
    requires Scaled(a * y, Pow(u, y)) == Scaled(b * x, Pow(w, x))
    ensures (x == 2 && y == 4) || (x == 126 && y == 252)
  {
    hide *;
    SameTwos(a * y, Pow(u, y), b * x, Pow(w, x));
    TwosMatch(a, b, u, w, x, y);
    OneAndTwo(x, y, u);
  }

  lemma OneAndTwo(x: nat, y: nat, u: nat)
    requires x == TwoTo(1) * u && y == TwoTo(2) * u && y < 256 && u % 2 == 1
    requires Cong(Pow(u, y), Pow(u, x), TwoTo(256 - y))
    ensures (x == 2 && y == 4) || (x == 126 && y == 252)
  {
    hide TwoTo, Pow, Cong;
    SmallTwoTo();
    SquareMinusOne(u, 256 - y);
    SmallOdd(u);
  }

  lemma CancelLeft(a: nat, x: nat, y: nat)
    requires a > 0 && a * y == a * x
    ensures x == y
  {
    Cancel(x, y, a);
  }

  lemma EqualTwos(x: nat, y: nat)
    requires x > 0 && y > 0 && Twos(x) == Twos(y) >= 1
    requires Twos(x) * y < 256 && Twos(y) * x < 256 && Wrap(Pow(x, y)) == Wrap(Pow(y, x))
    ensures x == y
  {
    hide *;
    PowerFactored(x, y);
    PowerFactored(y, x);
    SameTwos(Twos(x) * y, Pow(OddPart(x), y), Twos(y) * x, Pow(OddPart(y), x));
    CancelLeft(Twos(x), x, y);
  }

  lemma EvenOperands(x: Word, y: Word)
    requires x > 0 && y > 0 && x % 2 == 0 && y % 2 == 0 && x != y
    requires Wrap(Pow(x, y)) == Wrap(Pow(y, x)) && (Twos(x) * y < 256 || Twos(y) * x < 256)
    ensures AreTheTwo(x, y, 2, 4) || AreTheTwo(x, y, 126, 252)
  {
    hide Pow, Twos, Wrap, OddPart, TwoTo, Scaled;
    Factored(x);
    Factored(y);
    PowerFactored(x, y);
    PowerFactored(y, x);
    VanishesIff(Twos(x) * y, Pow(OddPart(x), y));
    VanishesIff(Twos(y) * x, Pow(OddPart(y), x));
    if Twos(x) < Twos(y) {
      UnequalTwos(x, y);
    } else if Twos(y) < Twos(x) {
      UnequalTwos(y, x);
    } else {
      EqualTwos(x, y);
    }
  }

  lemma ZeroPower(n: nat)
    requires n > 0
    ensures Pow(0, n) == 0 && Pow(n, 0) == 1 && Wrap(0) != Wrap(1)
  {
    EvenFactor(0, n);
  }

  lemma SameParity(x: Word, y: Word)
    requires x != y && Wrap(Pow(x, y)) == Wrap(Pow(y, x))
    ensures x > 0 && y > 0 && x % 2 == y % 2
  {
    hide Pow, Wrap;
    if x == 0 || y == 0 {
      ZeroPower(if x == 0 then y else x);
    } else {
      ParityShows(Pow(x, y), Pow(y, x));
      PowerParity(x, y);
      PowerParity(y, x);
    }
  }

  lemma ExchangedPowers(x: Word, y: Word)
    requires x == y || ExpMayExchange(x, y)
    ensures Wrap(Pow(x, y)) == Wrap(Pow(y, x))
  {
    hide Pow, Wrap, Twos, OddPart, TwoTo, Scaled;
    if x != y {
      if AreTheTwo(x, y, 2, 4) {
        TwoAndFour();
      } else if AreTheTwo(x, y, 126, 252) {
        NearlyTwoHundredFiftySix();
      } else {
        PowerFactored(x, y);
        PowerFactored(y, x);
        VanishesIff(Twos(x) * y, Pow(OddPart(x), y));
        VanishesIff(Twos(y) * x, Pow(OddPart(y), x));
      }
    }
  }

  /** Exchanged exponentiation is right only for equal operands, two powers that both vanish, or two pairs. */
  lemma ExpOrderMatters(x: Word, y: Word)
    ensures Evm.Binary(EXP, x, y) == Evm.Binary(EXP, y, x) <==> MayExchange(EXP, x, y)
  {
    hide Pow, Twos, Wrap, TwoTo;
    if x == y || ExpMayExchange(x, y) {
      ExchangedPowers(x, y);
    } else if Wrap(Pow(x, y)) == Wrap(Pow(y, x)) {
      SameParity(x, y);
      if x % 2 == 1 {
        OddOperands(x, y);
      } else {
        EvenOperands(x, y);
      }
    }
  }

  /** Exchanging the operands of a reversed instruction is right exactly when they may be exchanged. */
  lemma ExchangeIff(op: Op, x: Word, y: Word)
    requires Reversed(op)
    ensures Evm.Binary(op, x, y) == Evm.Binary(op, y, x) <==> MayExchange(op, x, y)
  {
    hide Evm.Binary, MayExchange;
    match op
    case SUB => SubOrderMatters(x, y);
    case DIV => DivModOrderMatters(x, y);
    case MOD => DivModOrderMatters(x, y);
    case EXP => ExpOrderMatters(x, y);
    case SHL => ShlOrderMatters(x, y);
    case SHR => ShrOrderMatters(x, y);
  }

  /** For each of them there are operands whose order matters. */
  lemma OrderCanMatter()
    ensures Evm.Binary(SUB, 2, 1) != Evm.Binary(SUB, 1, 2)
    ensures Evm.Binary(DIV, 2, 1) != Evm.Binary(DIV, 1, 2) && Evm.Binary(MOD, 2, 1) != Evm.Binary(MOD, 1, 2)
    ensures Evm.Binary(EXP, 3, 1) != Evm.Binary(EXP, 1, 3)
    ensures Evm.Binary(SHL, 3, 1) != Evm.Binary(SHL, 1, 3) && Evm.Binary(SHR, 3, 8) != Evm.Binary(SHR, 8, 3)
  {
    hide Evm.Binary;
    SmallTwoTo();
    ExchangeIff(SUB, 2, 1);
    ExchangeIff(DIV, 2, 1);
    ExchangeIff(MOD, 2, 1);
    ExchangeIff(EXP, 3, 1);
    ExchangeIff(SHL, 3, 1);
    ExchangeIff(SHR, 3, 8);
  }
}
