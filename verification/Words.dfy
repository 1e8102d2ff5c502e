/**
 Bytes, 256-bit words, and the arithmetic the EVM and the analysers share.
 Words are bounded integers: every operation that can leave the range wraps.
 */
module Words {

  datatype Option<+T> = None | Some(value: T) {
    function GetOr(default: T): T { if Some? then value else default }
  }

  type Byte = b: int | 0 <= b < 256

  lemma {:induction false} SubsetSize<T>(a: set<T>, b: set<T>)
    requires a <= b
    ensures |a| <= |b| && (|a| == |b| ==> a == b)
    decreases a
  {
    if a != {} {
      var x :| x in a;
      SubsetSize(a - {x}, b - {x});
    }
  }

  const MODULUS: nat := 0x1_00000000_00000000_00000000_00000000_00000000_00000000_00000000_00000000

  type Word = w: int | 0 <= w < MODULUS

  function Pow(base: nat, e: nat): nat {
    if e == 0 then 1 else base * Pow(base, e - 1)
  }

  lemma {:induction false} PowPositive(base: nat, e: nat)
    requires base > 0
    ensures Pow(base, e) > 0
  {
    if e > 0 {
      PowPositive(base, e - 1);
    }
  }

  function Wrap(x: int): Word {
    x % MODULUS
  }

  /** `int.from_bytes(s, "big")`. */
  function FromBigEndian(s: seq<Byte>): nat {
    if s == [] then 0 else FromBigEndian(s[..|s|-1]) * 256 + s[|s|-1]
  }

  function ToBigEndian(x: nat, n: nat): (s: seq<Byte>)
    ensures |s| == n
  {
    if n == 0 then [] else ToBigEndian(x / 256, n - 1) + [x % 256]
  }

  lemma {:induction false} BigEndianBound(s: seq<Byte>)
    ensures FromBigEndian(s) < Pow(256, |s|)
  {
    if s != [] {
      BigEndianBound(s[..|s|-1]);
    }
  }

  lemma {:induction false} BigEndianRoundTrip(s: seq<Byte>)
    ensures ToBigEndian(FromBigEndian(s), |s|) == s
  {
    if s != [] {
      var init := s[..|s|-1];
      BigEndianRoundTrip(init);
      assert FromBigEndian(s) / 256 == FromBigEndian(init);
      assert s == init + [s[|s|-1]];
    }
  }

  lemma TwoBytes(hi: Byte, lo: Byte)
    ensures FromBigEndian([hi, lo]) == hi as nat * 256 + lo as nat
  {
    assert [hi, lo][..1] == [hi] && [hi][..0] == [];
    assert FromBigEndian([hi]) == hi;
  }

  lemma {:induction false} Pow256Monotone(a: nat, b: nat)
    requires a <= b
    ensures Pow(256, a) <= Pow(256, b)
    decreases b
  {
    PowPositive(256, a);
    if a < b {
      Pow256Monotone(a, b - 1);
    }
  }

  lemma {:induction false} PowAdd(base: nat, a: nat, b: nat)
    ensures Pow(base, a + b) == Pow(base, a) * Pow(base, b)
  {
    if b > 0 {
      PowAdd(base, a, b - 1);
      MulAssociates(base, Pow(base, a), Pow(base, b - 1));
    }
  }

  lemma MulAssociates(x: nat, y: nat, z: nat)
    ensures x * (y * z) == y * (x * z)
  {
  }

  lemma PowSquare(base: nat, a: nat, v: nat)
    requires Pow(base, a) == v
    ensures Pow(base, 2 * a) == v * v
  {
    PowAdd(base, a, a);
  }

  lemma PowerOfTwo256()
    ensures Pow(2, 256) == MODULUS && Pow(256, 32) == MODULUS
  {
    hide Pow;
    SmallPowers();
    PowSquare(2, 8, 0x100);
    PowSquare(2, 16, 0x1_0000);
    PowSquare(2, 32, 0x1_00000000);
    PowSquare(2, 64, 0x1_00000000_00000000);
    PowSquare(2, 128, 0x1_00000000_00000000_00000000_00000000);
    PowSquare(256, 4, 0x1_00000000);
    PowSquare(256, 8, 0x1_00000000_00000000);
    PowSquare(256, 16, 0x1_00000000_00000000_00000000_00000000);
  }

  lemma SmallPowers()
    ensures Pow(2, 8) == 0x100 && Pow(256, 4) == 0x1_00000000
  {
  }

  // ---- Bitwise operations on natural numbers ----

  function BitAnd(x: nat, y: nat): nat {
    if x == 0 || y == 0 then 0
    else (if x % 2 == 1 && y % 2 == 1 then 1 else 0) + 2 * BitAnd(x / 2, y / 2)
  }

  function BitOr(x: nat, y: nat): nat
    decreases x + y
  {
    if x == 0 then y else if y == 0 then x
    else (if x % 2 == 1 || y % 2 == 1 then 1 else 0) + 2 * BitOr(x / 2, y / 2)
  }

  function BitXor(x: nat, y: nat): nat
    decreases x + y
  {
    if x == 0 then y else if y == 0 then x
    else (if x % 2 != y % 2 then 1 else 0) + 2 * BitXor(x / 2, y / 2)
  }

  lemma {:induction false} BitAndBound(x: nat, y: nat)
    ensures BitAnd(x, y) <= x && BitAnd(x, y) <= y
  {
    if x > 0 && y > 0 {
      BitAndBound(x / 2, y / 2);
    }
  }

  lemma {:induction false} BitOrBound(x: nat, y: nat, k: nat)
    requires x < Pow(2, k) && y < Pow(2, k)
    ensures BitOr(x, y) < Pow(2, k) && BitXor(x, y) < Pow(2, k)
    decreases k
  {
    if x > 0 && y > 0 {
      BitOrBound(x / 2, y / 2, k - 1);
    }
  }
}
