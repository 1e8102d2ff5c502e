/** When a two-operand instruction does not care about the order of its operands. */
module Exchange {
  import opened Words
  import opened Opcodes
  import opened Congruence
  import Evm

  const HALF: nat := 0x80000000_00000000_00000000_00000000_00000000_00000000_00000000_00000000

  /** How often 2 divides `x`; 0 for 0. */
  function Twos(x: nat): nat {
    if x > 0 && x % 2 == 0 then 1 + Twos(x / 2) else 0
  }

  predicate AreTheTwo(x: Word, y: Word, a: Word, b: Word) {
    (x == a && y == b) || (x == b && y == a)
  }

  /** The instructions whose operands the simulator takes in the wrong order. */
  predicate Reversed(op: Op) {
    op.SUB? || op.DIV? || op.MOD? || op.EXP? || op.SHL? || op.SHR?
  }

  /** The operands for which the six reversed instructions may take them in either order. */
  predicate MayExchange(op: Op, x: Word, y: Word)
    requires Reversed(op)
  {
    || x == y
    || (op.SUB? && (x - y == HALF || y - x == HALF))
    || ((op.DIV? || op.MOD?) && (x == 0 || y == 0))
    || (op.SHR? && ((x < y && y < TwoTo(x)) || (y < x && x < TwoTo(y))))
    || (op.SHL? && ShlMayExchange(x, y))
    || (op.EXP? && ExpMayExchange(x, y))
  }

  /** Both shifts too large, or one too large and the other losing every bit, or 1 and 2. */
  predicate ShlMayExchange(x: Word, y: Word) {
    || (x >= 256 && y >= 256)
    || (x >= 256 > y && x % TwoTo(256 - y) == 0)
    || (y >= 256 > x && y % TwoTo(256 - x) == 0)
    || AreTheTwo(x, y, 1, 2)
  }

  /** Both powers too even to leave a bit, or one of two pairs. */
  predicate ExpMayExchange(x: Word, y: Word) {
    || (x > 0 && y > 0 && Twos(x) * y >= 256 && Twos(y) * x >= 256)
    || AreTheTwo(x, y, 2, 4)
    || AreTheTwo(x, y, 126, 252)
  }

  // ---- Subtraction, division, remainder ----

  /** Exchanged subtraction is right only for equal operands or operands half the modulus apart. */
  lemma SubOrderMatters(x: Word, y: Word)
    ensures Evm.Binary(SUB, x, y) == Evm.Binary(SUB, y, x) <==> MayExchange(SUB, x, y)
  {
    var d := x - y;
    assert Wrap(d) == if d >= 0 then d else d + MODULUS;
    assert Wrap(-d) == if -d >= 0 then -d else -d + MODULUS;
  }

  /** Exchanged division or remainder is right only for equal operands or when one operand is zero. */
  lemma DivModOrderMatters(x: Word, y: Word)
    ensures Evm.Binary(DIV, x, y) == Evm.Binary(DIV, y, x) <==> MayExchange(DIV, x, y)
    ensures Evm.Binary(MOD, x, y) == Evm.Binary(MOD, y, x) <==> MayExchange(MOD, x, y)
  {
    if x != 0 && y != 0 {
      QuotientRemainder(x, y);
      QuotientRemainder(y, x);
    }
  }

  lemma QuotientRemainder(x: nat, y: nat)
    requires x > 0 && y > 0
    ensures x < y ==> x / y == 0 && x % y == x
    ensures x >= y ==> x / y >= 1 && x % y < y
  {
    assert x == y * (x / y) + x % y;
  }

  // ---- Shifts ----

  lemma {:induction false} HalveIff(v: nat, k: nat)
    ensures Evm.Halve(v, k) == 0 <==> v < TwoTo(k)
    decreases k
  {
    if k > 0 {
      HalveIff(v / 2, k - 1);
    }
  }

  lemma WordBelow(k: nat)
    requires k >= 256
    ensures MODULUS <= TwoTo(k)
  {
    hide TwoTo;
    TwoToIsPow(256);
    PowerOfTwo256();
    TwoToGrows(256, k);
  }

  lemma ShiftRightIsZero(v: Word, s: Word)
    ensures Evm.ShiftRight(v, s) == 0 <==> v < TwoTo(s)
  {
    hide TwoTo;
    if s >= 256 {
      WordBelow(s);
    } else {
      HalveIff(v, s);
    }
  }

  /** Exchanged right shifts agree only for equal operands or when the larger loses all its bits to the smaller. */
  lemma ShrOrderMatters(x: Word, y: Word)
    ensures Evm.Binary(SHR, x, y) == Evm.Binary(SHR, y, x) <==> MayExchange(SHR, x, y)
  {
    hide Evm.ShiftRight, TwoTo;
    ShiftRightIsZero(y, x);
    ShiftRightIsZero(x, y);
    BelowTwoTo(x);
    BelowTwoTo(y);
  }

  lemma WrapIsZero(v: nat, k: nat)
    requires k <= 256
    ensures Wrap(v * Pow(2, k)) == 0 <==> v % TwoTo(256 - k) == 0
  {
    hide TwoTo, Pow;
    var p, m := TwoTo(k), TwoTo(256 - k);
    TwoToIsPow(k);
    TwoToIsPow(256);
    PowerOfTwo256();
    TwoToSum(256 - k, k);
    if v % m == 0 {
      var q := v / m;
      assert v == m * q;
      assert v * p == q * MODULUS by { MulTriple(q, m, p); }
      MultipleIsZero(q, MODULUS);
    }
    if Wrap(v * p) == 0 {
      var q := (v * p) / MODULUS;
      assert v * p == MODULUS * q;
      Cancel(v, m * q, p) by { MulTriple(q, m, p); }
      MultipleIsZero(q, m);
    }
  }

  lemma MulTriple(q: int, m: int, p: int)
    ensures (m * q) * p == q * (m * p)
  {
  }

  lemma Cancel(a: int, b: int, p: nat)
    requires p > 0 && a * p == b * p
    ensures a == b
  {
    assert (a - b) * p == 0;
    MultipleBounds(a - b, p);
  }

  lemma SmallTwoTo()
    ensures TwoTo(1) == 2 && TwoTo(2) == 4 && TwoTo(3) == 8 && TwoTo(4) == 16
    ensures TwoTo(5) == 32 && TwoTo(6) == 64 && TwoTo(7) == 128 && TwoTo(8) == 256
  {
    assert TwoTo(4) == 16;
    assert TwoTo(8) == 2 * TwoTo(7);
  }

  /** The finitely many shifts by nearly the whole width. */
  lemma WideShifts(y: nat, d: nat, c: nat)
    requires 249 <= y <= 255 && 1 <= d <= 7 && y == TwoTo(d) * c
    ensures (y - c - d) % TwoTo(256 - y) != 0
  {
    SmallTwoTo();
    assert c == y / TwoTo(d);
    hide TwoTo;
  }

  lemma {:induction false} OnlyOneStep(d: nat)
    requires d >= 2
    ensures TwoTo(d) > d + 1
  {
    if d > 2 {
      OnlyOneStep(d - 1);
    }
  }

  /** What is left of the equation when the common powers of two are cancelled. */
  lemma SmallShiftEquation(x: nat, y: nat) returns (c: nat, q: int)
    requires x < y < 256 && Wrap(y * Pow(2, x)) == Wrap(x * Pow(2, y))
    ensures y == TwoTo(y - x) * c && y - c - (y - x) == q * TwoTo(256 - y)
  {
    hide TwoTo, Pow;
    var p, w, e := TwoTo(x), TwoTo(y - x), TwoTo(256 - y);
    TwoToIsPow(x);
    TwoToIsPow(y);
    TwoToIsPow(256);
    PowerOfTwo256();
    TwoToSum(x, y - x);
    TwoToSum(y - x, 256 - y);
    TwoToSum(x, 256 - x);
    assert MODULUS == p * (w * e);
    SameRemainder(y * p, x * (p * w), MODULUS);
    var r := Quotient(y * p, x * (p * w), MODULUS);
    Cancel(y, w * (x + r * e), p) by { ShiftAlgebra(x, p, w, e, r); }
    if x + r * e <= 0 {
      NoPositive(w, x + r * e);
    }
    c := x + r * e;
    q := -r;
  }

  lemma NoPositive(w: nat, k: int)
    requires k <= 0
    ensures w * k <= 0
  {
  }

  lemma ShiftAlgebra(x: int, p: int, w: int, e: int, r: int)
    ensures x * (p * w) + r * (p * (w * e)) == (w * (x + r * e)) * p
  {
    var z := r * e;
    assert r * (p * (w * e)) == p * w * z;
    assert (w * (x + z)) * p == p * w * x + p * w * z;
  }

  lemma SmallShifts(x: nat, y: nat)
    requires x < y < 256
    ensures Wrap(y * Pow(2, x)) == Wrap(x * Pow(2, y)) <==> x == 1 && y == 2
  {
    if x == 1 && y == 2 {
      assert Pow(2, 1) == 2 && Pow(2, 2) == 4;
    } else if Wrap(y * Pow(2, x)) == Wrap(x * Pow(2, y)) {
      hide Pow, TwoTo;
      var c, q := SmallShiftEquation(x, y);
      SmallShiftsDiffer(y, y - x, c, q);
    }
  }

  lemma SmallShiftsDiffer(y: nat, d: nat, c: nat, q: int)
    requires 1 <= d <= y < 256 && y == TwoTo(d) * c && y - c - d == q * TwoTo(256 - y)
    ensures d == 1 && y == 2
  {
    hide TwoTo;
    MultipleIsZero(q, TwoTo(256 - y));
    if y - c - d == 0 {
      var w := TwoTo(d);
      SmallTwoTo();
      assert w * c == c + (w - 1) * c;
      AtLeast(w - 1, c);
      if d >= 2 {
        OnlyOneStep(d);
      }
    } else {
      OnlyOneIsExact(y, d, c);
    }
  }

  lemma OnlyOneIsExact(y: nat, d: nat, c: nat)
    requires 1 <= d <= y < 256 && y == TwoTo(d) * c && y - c - d != 0
    ensures (y - c - d) % TwoTo(256 - y) != 0
  {
    hide TwoTo;
    SmallTwoTo();
    if y < 249 {
      AtMostShifted(TwoTo(d), c, d) by { BelowTwoTo(d); }
      TwoToGrows(8, 256 - y);
      Remainder(y - c - d, TwoTo(256 - y));
    } else {
      FewTwos(y, d, c);
      WideShifts(y, d, c);
    }
  }

  lemma AtMostShifted(w: nat, c: nat, d: nat)
    requires w > d && w * c >= 1
    ensures w * c - c - d >= 0
  {
    assert w * c == c + (w - 1) * c;
    AtLeast(w - 1, c) by { MultipleBounds(c, w); }
  }

  lemma Remainder(v: nat, m: nat)
    requires v < m
    ensures v % m == v
  {
  }

  lemma FewTwos(y: nat, d: nat, c: nat)
    requires 1 <= y < 256 && y == TwoTo(d) * c
    ensures d <= 7
  {
    hide TwoTo;
    SmallTwoTo();
    AtLeast(TwoTo(d), c);
    if d >= 8 {
      TwoToGrows(8, d);
    }
  }

  lemma AtLeast(a: nat, c: nat)
    requires c >= 1
    ensures a * c >= a
  {
    MultipleBounds(c, a);
  }

  /** Exchanged left shifts. */
  lemma ShlOrderMatters(x: Word, y: Word)
    ensures Evm.Binary(SHL, x, y) == Evm.Binary(SHL, y, x) <==> MayExchange(SHL, x, y)
  {
    hide TwoTo, Pow, Wrap;
    if x < 256 && y < 256 {
      if x < y {
        SmallShifts(x, y);
      } else if y < x {
        SmallShifts(y, x);
      }
    } else if x >= 256 > y {
      WrapIsZero(x, y);
    } else if y >= 256 > x {
      WrapIsZero(y, x);
    }
  }
}
