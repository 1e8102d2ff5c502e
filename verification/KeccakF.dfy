/** The permutation of Keccak: the step mappings of section 3.2 of FIPS 202, and the two loops that compute them. */
module KeccakF {
  import opened Words
  import opened Bits

  /** Lanes are integers below 2 to the power of 64, as in the source. */
  const LANE_MODULUS: nat := 0x1_00000000_00000000

  type Lane = v: nat | v < LANE_MODULUS

  lemma LaneModulus()
    ensures Pow(2, 64) == LANE_MODULUS && Pow(256, 8) == LANE_MODULUS
  {
    hide Pow;
    SmallPowers();
    PowSquare(2, 8, 0x100);
    PowSquare(2, 16, 0x1_0000);
    PowSquare(2, 32, 0x1_00000000);
    PowSquare(256, 4, 0x1_00000000);
  }

  /** Twenty-five lanes; lane (x, y) is at index 5x + y. */
  type Lanes = s: seq<Lane> | |s| == 25 witness seq(25, i => 0)

  function Xor(a: Lane, b: Lane): Lane {
    LaneModulus();
    BitOrBound(a, b, 64);
    BitXor(a, b)
  }

  /** `~a & b`. */
  function AndNot(a: Lane, b: Lane): Lane {
    BitAndBound(LANE_MODULUS - 1 - a, b);
    BitAnd(LANE_MODULUS - 1 - a, b)
  }

  /** `((v << shift) | (v >> (64 - shift))) & 0xFFFFFFFFFFFFFFFF`. */
  function Rol(v: Lane, shift: nat): Lane
    requires shift <= 64
  {
    PowPositive(2, 64 - shift);
    BitOr(v * Pow(2, shift), v / Pow(2, 64 - shift)) % LANE_MODULUS
  }

  lemma RolZero(v: Lane)
    ensures Rol(v, 0) == v
  {
    LaneModulus();
    SmallRemainder(v, LANE_MODULUS);
    assert Pow(2, 0) == 1;
    hide Pow;
    assert BitOr(v, 0) == v;
  }

  /** The rotation table, column by column. */
  function Rotation(x: nat, y: nat): (r: nat)
    requires x < 5 && y < 5
    ensures r < 64
  {
    if x == 0 then [0, 36, 3, 41, 18][y]
    else if x == 1 then [1, 44, 10, 45, 2][y]
    else if x == 2 then [62, 6, 43, 15, 61][y]
    else if x == 3 then [28, 55, 25, 21, 56][y]
    else [27, 20, 39, 8, 14][y]
  }

  /** The table of round constants. */
  function RoundConstant(i: nat): Lane
    requires i < 24
  {
    if i == 0 then 0x0000000000000001 else if i == 1 then 0x0000000000008082 else if i == 2 then 0x800000000000808A
    else if i == 3 then 0x8000000080008000 else if i == 4 then 0x000000000000808B else if i == 5 then 0x0000000080000001
    else if i == 6 then 0x8000000080008081 else if i == 7 then 0x8000000000008009 else if i == 8 then 0x000000000000008A
    else if i == 9 then 0x0000000000000088 else if i == 10 then 0x0000000080008009 else if i == 11 then 0x000000008000000A
    else if i == 12 then 0x000000008000808B else if i == 13 then 0x800000000000008B else if i == 14 then 0x8000000000008089
    else if i == 15 then 0x8000000000008003 else if i == 16 then 0x8000000000008002 else if i == 17 then 0x8000000000000080
    else if i == 18 then 0x000000000000800A else if i == 19 then 0x800000008000000A else if i == 20 then 0x8000000080008081
    else if i == 21 then 0x8000000000008080 else if i == 22 then 0x0000000080000001 else 0x8000000080008008
  }

  function At(s: Lanes, x: nat, y: nat): Lane
    requires x < 5 && y < 5
  {
    s[5 * x + y]
  }

  // ---- The step mappings ----

  function Column(s: Lanes, x: nat): Lane
    requires x < 5
  {
    Xor(Xor(Xor(Xor(At(s, x, 0), At(s, x, 1)), At(s, x, 2)), At(s, x, 3)), At(s, x, 4))
  }

  /** What theta adds to every lane of sheet x. */
  function Parity(s: Lanes, x: nat): Lane
    requires x < 5
  {
    Xor(Column(s, (x + 4) % 5), Rol(Column(s, (x + 1) % 5), 1))
  }

  function Theta(s: Lanes): Lanes {
    seq(25, i requires 0 <= i < 25 => Xor(s[i], Parity(s, i / 5)))
  }

  function Rho(s: Lanes): Lanes {
    seq(25, i requires 0 <= i < 25 => Rol(s[i], Rotation(i / 5, i % 5)))
  }

  /** Lane (x, y) comes from lane (x + 3y, x). */
  function Pi(s: Lanes): Lanes {
    seq(25, i requires 0 <= i < 25 => At(s, (i / 5 + 3 * (i % 5)) % 5, i / 5))
  }

  function Chi(s: Lanes): Lanes {
    seq(25, i requires 0 <= i < 25 => ChiLane(s, i / 5, i % 5))
  }

  function ChiLane(s: Lanes, x: nat, y: nat): Lane
    requires x < 5 && y < 5
  {
    Xor(At(s, x, y), AndNot(At(s, (x + 1) % 5, y), At(s, (x + 2) % 5, y)))
  }

  function Iota(s: Lanes, round: nat): Lanes
    requires round < 24
  {
    s[0 := Xor(s[0], RoundConstant(round))]
  }

  function Round(s: Lanes, round: nat): Lanes
    requires round < 24
  {
    Iota(Chi(Pi(Rho(Theta(s)))), round)
  }

  function Rounds(s: Lanes, n: nat): Lanes
    requires n <= 24
  {
    if n == 0 then s else Round(Rounds(s, n - 1), n - 1)
  }

  function Permute(s: Lanes): Lanes {
    Rounds(s, 24)
  }

  // ---- The tables are those of the standard ----

  /** Where the walk of section 3.2.2 is after `t` steps. */
  function WalkX(t: nat): (x: nat)
    ensures x < 5
  {
    if t == 0 then 1 else WalkY(t - 1)
  }

  function WalkY(t: nat): (y: nat)
    ensures y < 5
  {
    if t == 0 then 0 else (2 * WalkX(t - 1) + 3 * WalkY(t - 1)) % 5
  }

  /** The walk, written out: lane (x, y) as 5x + y. */
  function WalkLane(i: nat): nat {
    if i == 0 then 5 else if i == 1 then 2 else if i == 2 then 11
    else if i == 3 then 7 else if i == 4 then 13 else if i == 5 then 18
    else if i == 6 then 15 else if i == 7 then 1 else if i == 8 then 8
    else if i == 9 then 16 else if i == 10 then 9 else if i == 11 then 24
    else if i == 12 then 20 else if i == 13 then 3 else if i == 14 then 19
    else if i == 15 then 23 else if i == 16 then 17 else if i == 17 then 12
    else if i == 18 then 10 else if i == 19 then 4 else if i == 20 then 22
    else if i == 21 then 14 else if i == 22 then 21 else 6
  }

  lemma {:induction false} WalkIs(t: nat)
    requires t < 24
    ensures 5 * WalkX(t) + WalkY(t) == WalkLane(t)
  {
    assert WalkLane(0) == 5;
    if t > 0 {
      var x, y := WalkX(t - 1), WalkY(t - 1);
      assert WalkX(t) == y && WalkY(t) == (2 * x + 3 * y) % 5;
      hide WalkLane, WalkX, WalkY;
      WalkIs(t - 1);
      WalkStep(t - 1, x, y);
    }
  }

  lemma LaneParts(x: nat, y: nat)
    requires x < 5 && y < 5
    ensures (5 * x + y) / 5 == x && (5 * x + y) % 5 == y
  {
  }

  lemma WalkStep(i: nat, x: nat, y: nat)
    requires i < 23 && x < 5 && y < 5 && WalkLane(i) == 5 * x + y
    ensures WalkLane(i + 1) == 5 * y + (2 * x + 3 * y) % 5
  {
  }

  /** Step `t` of the walk sets the offset to the triangular number (t + 1)(t + 2) / 2. */
  lemma OffsetsFollowWalk(t: nat)
    requires t < 24
    ensures Rotation(WalkX(t), WalkY(t)) == ((t + 1) * (t + 2) / 2) % 64
    ensures Rotation(0, 0) == 0
  {
    WalkIs(t);
    OffsetOfLane(t);
    LaneParts(WalkX(t), WalkY(t));
  }

  lemma OffsetOfLane(i: nat)
    requires i < 24
    ensures WalkLane(i) < 25 && Rotation(WalkLane(i) / 5, WalkLane(i) % 5) == ((i + 1) * (i + 2) / 2) % 64
  {
  }
}
