/** Keccak in the terms of FIPS 202: states and messages as strings of bits. */
module KeccakBits {
  // The step mappings of section 3.2, the sponge of section 4 and the padding
  // of section 5.1, and what the lanes and bytes of the program are to them.

  import opened Words
  import opened Bits
  import opened KeccakF
  import opened Keccak

  /** Section 3.1: 1600 bits, bit (x, y, z) at 64(5y + x) + z. */
  type State = s: seq<bool> | |s| == 1600 witness NoBits(1600)

  function NoBits(n: nat): (z: seq<bool>)
    ensures |z| == n && forall i :: 0 <= i < n ==> !z[i]
  {
    seq(n, i => false)
  }

  function BitAt(s: State, x: nat, y: nat, z: nat): bool
    requires x < 5 && y < 5 && z < 64
  {
    s[64 * (5 * y + x) + z]
  }

  function X(n: nat): (x: nat)
    ensures x < 5
  {
    n / 64 % 5
  }

  function Y(n: nat): (y: nat)
    requires n < 1600
    ensures y < 5
  {
    n / 64 / 5
  }

  function Z(n: nat): (z: nat)
    ensures z < 64
  {
    n % 64
  }

  /** Addition modulo 2. */
  function Plus(a: bool, b: bool): bool {
    a != b
  }

  // ---- The step mappings ----

  /** Section 3.2.1. */
  function ThetaBits(s: State): State {
    seq(1600, n requires 0 <= n < 1600 => Plus(s[n], ColumnsAround(s, X(n), Z(n))))
  }

  function ColumnsAround(s: State, x: nat, z: nat): bool
    requires x < 5 && z < 64
  {
    Plus(ColumnParity(s, (x + 4) % 5, z), ColumnParity(s, (x + 1) % 5, (z + 63) % 64))
  }

  function ColumnParity(s: State, x: nat, z: nat): bool
    requires x < 5 && z < 64
  {
    Plus(Plus(Plus(Plus(BitAt(s, x, 0, z), BitAt(s, x, 1, z)), BitAt(s, x, 2, z)), BitAt(s, x, 3, z)), BitAt(s, x, 4, z))
  }

  /** Section 3.2.2: the lane that the walk reaches in step `t` is turned by the triangular number (t + 1)(t + 2) / 2. */
  ghost function RhoBits(s: State): State {
    seq(1600, n requires 0 <= n < 1600 => BitAt(s, X(n), Y(n), (Z(n) - Offset(X(n), Y(n))) % 64))
  }

  ghost function Offset(x: nat, y: nat): nat
    requires x < 5 && y < 5
  {
    if x == 0 && y == 0 then 0 else var t := WalkStepOf(x, y); (t + 1) * (t + 2) / 2
  }

  /** The step in which the walk is at (x, y). */
  ghost function WalkStepOf(x: nat, y: nat): (t: nat)
    requires x < 5 && y < 5 && (x != 0 || y != 0)
    ensures t < 24 && WalkX(t) == x && WalkY(t) == y
  {
    WalkCovers(x, y);
    var t: nat :| t < 24 && WalkX(t) == x && WalkY(t) == y;
    t
  }

  /** The walk visits every lane but (0, 0). */
  lemma WalkCovers(x: nat, y: nat)
    requires x < 5 && y < 5 && (x != 0 || y != 0)
    ensures exists t: nat :: t < 24 && WalkX(t) == x && WalkY(t) == y
  {
    var t := StepTable(5 * x + y);
    StepTableIs(5 * x + y);
    WalkIs(t);
    hide WalkX, WalkY;
    assert WalkX(t) == x && WalkY(t) == y;
  }

  function StepTable(k: nat): nat {
    if k == 5 then 0 else if k == 2 then 1 else if k == 11 then 2
    else if k == 7 then 3 else if k == 13 then 4 else if k == 18 then 5
    else if k == 15 then 6 else if k == 1 then 7 else if k == 8 then 8
    else if k == 16 then 9 else if k == 9 then 10 else if k == 24 then 11
    else if k == 20 then 12 else if k == 3 then 13 else if k == 19 then 14
    else if k == 23 then 15 else if k == 17 then 16 else if k == 12 then 17
    else if k == 10 then 18 else if k == 4 then 19 else if k == 22 then 20
    else if k == 14 then 21 else if k == 21 then 22 else 23
  }

  lemma StepTableIs(k: nat)
    requires 0 < k < 25
    ensures StepTable(k) < 24 && WalkLane(StepTable(k)) == k
  {
  }

  /** Section 3.2.3. */
  function PiBits(s: State): State {
    seq(1600, n requires 0 <= n < 1600 => BitAt(s, (X(n) + 3 * Y(n)) % 5, X(n), Z(n)))
  }

  /** Section 3.2.4. */
  function ChiBits(s: State): State {
    seq(1600, n requires 0 <= n < 1600 => ChiBit(s, X(n), Y(n), Z(n)))
  }

  function ChiBit(s: State, x: nat, y: nat, z: nat): bool
    requires x < 5 && y < 5 && z < 64
  {
    Plus(BitAt(s, x, y, z), !BitAt(s, (x + 1) % 5, y, z) && BitAt(s, (x + 2) % 5, y, z))
  }

  /** Algorithm 5 of section 3.2.5: the register R, and what it is after `t` turns. */
  datatype Register = R(r0: bool, r1: bool, r2: bool, r3: bool, r4: bool, r5: bool, r6: bool, r7: bool) {
    function Turned(): Register {
      R(r7, r0, r1, r2, Plus(r3, r7), Plus(r4, r7), Plus(r5, r7), r6)
    }
  }

  function RegisterAfter(t: nat): Register {
    if t == 0 then R(true, false, false, false, false, false, false, false) else RegisterAfter(t - 1).Turned()
  }

  function Rc(t: nat): bool {
    RegisterAfter(t % 255).r0
  }

  /** Section 3.2.5: the bits of a round constant stand at the positions one below a power of two. */
  function ConstantBit(round: nat, z: nat): bool {
    if z == 0 then Rc(7 * round) else if z == 1 then Rc(7 * round + 1) else if z == 3 then Rc(7 * round + 2)
    else if z == 7 then Rc(7 * round + 3) else if z == 15 then Rc(7 * round + 4) else if z == 31 then Rc(7 * round + 5)
    else z == 63 && Rc(7 * round + 6)
  }

  /** Lane (0, 0) is made of the first 64 bits. */
  function IotaBits(s: State, round: nat): State {
    seq(1600, n requires 0 <= n < 1600 => if n < 64 then Plus(s[n], ConstantBit(round, n)) else s[n])
  }

  ghost function RoundsBits(s: State, n: nat): State {
    if n == 0 then s else IotaBits(ChiBits(PiBits(RhoBits(ThetaBits(RoundsBits(s, n - 1))))), n - 1)
  }

  /** Section 3.4: 24 rounds. */
  ghost function PermuteBits(s: State): State {
    RoundsBits(s, 24)
  }

  // ---- The sponge ----

  /** Section 5.1: a one, as few zeros as possible, and a one, behind `m` bits up to a multiple of `x`. */
  function PadTenStarOne(x: nat, m: nat): seq<bool>
    requires x > 0
  {
    [true] + seq((-(m as int) - 2) % x, i => false) + [true]
  }

  const BIT_RATE: nat := 1088

  /** Algorithm 8, step 6: a block and as many zeros as the capacity are added to the state. */
  function AddBits(s: State, block: seq<bool>): State
    requires |block| == BIT_RATE
  {
    seq(1600, n requires 0 <= n < 1600 => if n < BIT_RATE then Plus(s[n], block[n]) else s[n])
  }

  ghost function AbsorbBits(s: State, p: seq<bool>): State
    decreases |p|
  {
    if |p| < BIT_RATE then s else AbsorbBits(PermuteBits(AddBits(s, p[..BIT_RATE])), p[BIT_RATE..])
  }

  /** The first 256 bits of the state after a bit string of whole blocks. */
  ghost function OutputOf(p: seq<bool>): seq<bool> {
    AbsorbBits(NoBits(1600), p)[..256]
  }

  /** Section 5.2: KECCAK[512] with 256 bits of output, which fit into one squeeze. */
  ghost function SpongeBits(n: seq<bool>): seq<bool> {
    OutputOf(n + PadTenStarOne(BIT_RATE, |n|))
  }

  // ---- Lanes and states ----

  /** The state that the lanes stand for. */
  function StateOf(s: Lanes): State {
    seq(1600, n requires 0 <= n < 1600 => Bit(At(s, X(n), Y(n)), Z(n)))
  }

  lemma IndexParts(x: nat, y: nat, z: nat)
    requires x < 5 && y < 5 && z < 64
    ensures var n := 64 * (5 * y + x) + z; n < 1600 && X(n) == x && Y(n) == y && Z(n) == z
  {
  }

  lemma IndexWhole(n: nat)
    requires n < 1600
    ensures 64 * (5 * Y(n) + X(n)) + Z(n) == n
  {
  }

  lemma StateReads(s: Lanes, x: nat, y: nat, z: nat)
    requires x < 5 && y < 5 && z < 64
    ensures BitAt(StateOf(s), x, y, z) == Bit(At(s, x, y), z)
  {
    IndexParts(x, y, z);
    hide X, Y, Z, Bit, At;
  }

  lemma XorLane(a: Lane, b: Lane, z: nat)
    ensures Bit(Xor(a, b), z) == Plus(Bit(a, z), Bit(b, z))
  {
    XorBits(a, b, z);
  }

  lemma AndNotLane(a: Lane, b: Lane, z: nat)
    requires z < 64
    ensures Bit(AndNot(a, b), z) == (!Bit(a, z) && Bit(b, z))
  {
    hide Bit, BitAnd, Pow;
    LaneModulus();
    NotBits(a, 64, z);
    AndBits(LANE_MODULUS - 1 - a, b, z);
  }

  /** A rotation moves every bit up, and the topmost ones to the bottom. */
  lemma RolLane(v: Lane, shift: nat, z: nat)
    requires shift < 64 && z < 64
    ensures Bit(Rol(v, shift), z) == Bit(v, (z - shift) % 64)
  {
    hide Bit, BitOr, Pow;
    LaneModulus();
    PowPositive(2, 64 - shift);
    var high, low := v * Pow(2, shift), v / Pow(2, 64 - shift);
    RemainderBits(BitOr(high, low), 64, z);
    OrBits(high, low, z);
    ProductBits(v, shift, z);
    QuotientBits(v, 64 - shift, z);
    if z >= shift {
      HighBits(v, 64, z + 64 - shift);
    }
  }

  lemma ColumnOf(s: Lanes, x: nat, z: nat)
    requires x < 5 && z < 64
    ensures Bit(Column(s, x), z) == ColumnParity(StateOf(s), x, z)
  {
    hide Bit, Xor, At, BitAt, StateOf;
    StateReads(s, x, 0, z);
    StateReads(s, x, 1, z);
    StateReads(s, x, 2, z);
    StateReads(s, x, 3, z);
    StateReads(s, x, 4, z);
    var a := Xor(At(s, x, 0), At(s, x, 1));
    var b := Xor(a, At(s, x, 2));
    var c := Xor(b, At(s, x, 3));
    XorLane(At(s, x, 0), At(s, x, 1), z);
    XorLane(a, At(s, x, 2), z);
    XorLane(b, At(s, x, 3), z);
    XorLane(c, At(s, x, 4), z);
  }

  lemma ParityOf(s: Lanes, x: nat, z: nat)
    requires x < 5 && z < 64
    ensures Bit(Parity(s, x), z) == ColumnsAround(StateOf(s), x, z)
  {
    hide Bit, Xor, Rol, Column, ColumnParity, StateOf;
    var left, right := Column(s, (x + 4) % 5), Column(s, (x + 1) % 5);
    XorLane(left, Rol(right, 1), z);
    RolLane(right, 1, z);
    ColumnOf(s, (x + 4) % 5, z);
    ColumnOf(s, (x + 1) % 5, (z + 63) % 64);
    assert (z - 1) % 64 == (z + 63) % 64;
  }

  /** A bit of the state that some lanes stand for. */
  lemma StateBit(s: Lanes, n: nat)
    requires n < 1600
    ensures StateOf(s)[n] == Bit(At(s, X(n), Y(n)), Z(n))
  {
    hide X, Y, Z, Bit, At;
  }

  lemma ThetaLane(s: Lanes, x: nat, y: nat)
    requires x < 5 && y < 5
    ensures At(Theta(s), x, y) == Xor(At(s, x, y), Parity(s, x))
  {
    hide Xor, Parity;
    LaneParts(x, y);
  }

  lemma ThetaIs(s: Lanes)
    ensures StateOf(Theta(s)) == ThetaBits(StateOf(s))
  {
    hide Bit, Xor, Parity, Theta, StateOf, ColumnsAround, At, X, Y, Z;
    forall n: nat | n < 1600 ensures StateOf(Theta(s))[n] == ThetaBits(StateOf(s))[n] {
      StateBit(Theta(s), n);
      StateBit(s, n);
      ThetaLane(s, X(n), Y(n));
      XorLane(At(s, X(n), Y(n)), Parity(s, X(n)), Z(n));
      ParityOf(s, X(n), Z(n));
    }
  }

  /** The offset table modulo the lane length. */
  lemma OffsetIs(x: nat, y: nat)
    requires x < 5 && y < 5
    ensures Rotation(x, y) == Offset(x, y) % 64
  {
    hide Rotation, WalkX, WalkY;
    OffsetsFollowWalk(0);
    if x != 0 || y != 0 {
      OffsetsFollowWalk(WalkStepOf(x, y));
    }
  }

  lemma SameTurn(z: int, offset: int)
    ensures (z - offset) % 64 == (z - offset % 64) % 64
  {
    var q := offset / 64;
    assert z - offset % 64 == z - offset + 64 * q;
  }

  lemma RhoAt(s: Lanes, x: nat, y: nat)
    requires x < 5 && y < 5
    ensures At(Rho(s), x, y) == Rol(At(s, x, y), Rotation(x, y))
  {
    hide Rol, Rotation;
    LaneParts(x, y);
  }

  lemma RhoIs(s: Lanes)
    ensures StateOf(Rho(s)) == RhoBits(StateOf(s))
  {
    hide Bit, Rol, Rho, StateOf, At, BitAt, X, Y, Z, Rotation, Offset;
    forall n: nat | n < 1600 ensures StateOf(Rho(s))[n] == RhoBits(StateOf(s))[n] {
      var x, y, z := X(n), Y(n), Z(n);
      StateBit(Rho(s), n);
      RhoAt(s, x, y);
      RolLane(At(s, x, y), Rotation(x, y), z);
      OffsetIs(x, y);
      SameTurn(z, Offset(x, y));
      StateReads(s, x, y, (z - Offset(x, y)) % 64);
    }
  }

  lemma PiAt(s: Lanes, x: nat, y: nat)
    requires x < 5 && y < 5
    ensures At(Pi(s), x, y) == At(s, (x + 3 * y) % 5, x)
  {
    LaneParts(x, y);
    PiReads(s, 5 * x + y);
    hide Pi;
  }

  lemma PiIs(s: Lanes)
    ensures StateOf(Pi(s)) == PiBits(StateOf(s))
  {
    hide Bit, Pi, StateOf, At, BitAt, X, Y, Z;
    forall n: nat | n < 1600 ensures StateOf(Pi(s))[n] == PiBits(StateOf(s))[n] {
      StateBit(Pi(s), n);
      PiAt(s, X(n), Y(n));
      StateReads(s, (X(n) + 3 * Y(n)) % 5, X(n), Z(n));
    }
  }

  lemma ChiAt(s: Lanes, x: nat, y: nat)
    requires x < 5 && y < 5
    ensures At(Chi(s), x, y) == Xor(At(s, x, y), AndNot(At(s, (x + 1) % 5, y), At(s, (x + 2) % 5, y)))
  {
    hide Xor, AndNot;
    LaneParts(x, y);
  }

  lemma ChiIsBits(s: Lanes)
    ensures StateOf(Chi(s)) == ChiBits(StateOf(s))
  {
    hide Bit, Chi, Xor, AndNot, StateOf, At, BitAt, X, Y, Z;
    forall n: nat | n < 1600 ensures StateOf(Chi(s))[n] == ChiBits(StateOf(s))[n] {
      var x, y, z := X(n), Y(n), Z(n);
      var a, b, c := At(s, x, y), At(s, (x + 1) % 5, y), At(s, (x + 2) % 5, y);
      StateBit(Chi(s), n);
      ChiAt(s, x, y);
      XorLane(a, AndNot(b, c), z);
      AndNotLane(b, c, z);
      StateReads(s, x, y, z);
      StateReads(s, (x + 1) % 5, y, z);
      StateReads(s, (x + 2) % 5, y, z);
    }
  }

  // ---- The round constants ----

  /** The register after 0, 7, 14, ... turns. */
  function RegisterTable(i: nat): Register {
    if i == 0 then R(true, false, false, false, false, false, false, false)
    else if i == 1 then R(false, false, false, false, false, false, false, true)
    else if i == 2 then R(false, false, false, true, true, false, true, true)
    else if i == 3 then R(false, true, false, true, true, false, false, false)
    else if i == 4 then R(true, true, true, true, true, false, true, true)
    else if i == 5 then R(true, false, false, true, false, false, false, false)
    else if i == 6 then R(true, false, true, false, true, true, false, false)
    else if i == 7 then R(true, true, true, true, false, false, true, false)
    else if i == 8 then R(false, true, false, true, false, false, true, true)
    else if i == 9 then R(false, false, false, false, true, true, true, false)
    else if i == 10 then R(true, false, false, false, false, false, true, false)
    else if i == 11 then R(false, false, true, true, false, true, true, true)
    else if i == 12 then R(true, false, true, false, true, false, true, true)
    else if i == 13 then R(true, false, true, true, false, false, true, true)
    else if i == 14 then R(true, true, false, false, false, true, true, false)
    else if i == 15 then R(true, true, false, true, false, true, false, true)
    else if i == 16 then R(false, true, false, true, false, true, false, true)
    else if i == 17 then R(false, true, false, true, false, true, false, false)
    else if i == 18 then R(false, true, false, false, true, true, true, true)
    else if i == 19 then R(false, false, false, true, false, true, true, true)
    else if i == 20 then R(true, true, true, false, true, true, false, false)
    else if i == 21 then R(false, true, true, true, true, true, false, false)
    else if i == 22 then R(true, true, false, true, false, false, false, false)
    else R(false, false, true, false, false, false, true, false)
  }

  function Seven(r: Register): Register {
    r.Turned().Turned().Turned().Turned().Turned().Turned().Turned()
  }

  /** Seven turns at once. */
  lemma SevenIs(r: Register)
    ensures Seven(r) == R(
      Plus(Plus(r.r1, r.r3), r.r4),
      Plus(Plus(r.r2, r.r4), r.r5),
      Plus(Plus(r.r3, r.r5), r.r6),
      Plus(Plus(r.r4, r.r6), r.r7),
      Plus(Plus(Plus(Plus(r.r1, r.r3), r.r4), r.r5), r.r7),
      Plus(Plus(Plus(Plus(r.r1, r.r2), r.r3), r.r5), r.r6),
      Plus(Plus(Plus(r.r1, r.r2), r.r6), r.r7),
      Plus(Plus(Plus(r.r0, r.r2), r.r3), r.r7))
  {
  }

  lemma TableStepEarly(i: nat)
    requires i < 8
    ensures Seven(RegisterTable(i)) == RegisterTable(i + 1)
  {
    hide Seven, Plus;
    PlusIs();
    SevenIs(RegisterTable(i));
  }

  lemma TableStepMiddle(i: nat)
    requires 8 <= i < 16
    ensures Seven(RegisterTable(i)) == RegisterTable(i + 1)
  {
    hide Seven, Plus;
    PlusIs();
    SevenIs(RegisterTable(i));
  }

  lemma TableStepLate(i: nat)
    requires 16 <= i < 23
    ensures Seven(RegisterTable(i)) == RegisterTable(i + 1)
  {
    hide Seven, Plus;
    PlusIs();
    SevenIs(RegisterTable(i));
  }

  lemma PlusIs()
    ensures Plus(true, true) == false && Plus(true, false) == true && Plus(false, true) == true && Plus(false, false) == false
  {
  }

  lemma TableStep(i: nat)
    requires i < 23
    ensures Seven(RegisterTable(i)) == RegisterTable(i + 1)
  {
    hide Seven, RegisterTable;
    if i < 8 {
      TableStepEarly(i);
    } else if i < 16 {
      TableStepMiddle(i);
    } else {
      TableStepLate(i);
    }
  }

  lemma SevenTurns(t: nat)
    ensures var r := RegisterAfter(t);
      && RegisterAfter(t + 1) == r.Turned()
      && RegisterAfter(t + 2) == r.Turned().Turned()
      && RegisterAfter(t + 3) == r.Turned().Turned().Turned()
      && RegisterAfter(t + 4) == r.Turned().Turned().Turned().Turned()
      && RegisterAfter(t + 5) == r.Turned().Turned().Turned().Turned().Turned()
      && RegisterAfter(t + 6) == r.Turned().Turned().Turned().Turned().Turned().Turned()
      && RegisterAfter(t + 7) == Seven(r)
  {
    hide Plus;
  }

  lemma FirstRegister()
    ensures RegisterAfter(0) == RegisterTable(0)
  {
  }

  lemma {:induction false} RegisterIs(i: nat)
    requires i < 24
    ensures RegisterAfter(7 * i) == RegisterTable(i)
  {
    hide Seven, RegisterTable;
    if i == 0 {
      FirstRegister();
    } else {
      RegisterIs(i - 1);
      TableStep(i - 1);
      SevenTurns(7 * (i - 1));
    }
  }

  function BitValue(b: bool): nat {
    if b then 1 else 0
  }

  /** The integer with these bits at positions 0, 1, 3, 7, 15, 31 and 63. */
  function Spread(b0: bool, b1: bool, b2: bool, b3: bool, b4: bool, b5: bool, b6: bool): nat {
    BitValue(b0) + 2 * (BitValue(b1) + 4 * (BitValue(b2) + 16 * (BitValue(b3)
      + 0x100 * (BitValue(b4) + 0x10000 * (BitValue(b5) + 0x1_00000000 * BitValue(b6))))))
  }

  /** The output bits of the seven turns from a register. */
  function SpreadFrom(r: Register): nat {
    Spread(r.r0, r.Turned().r0, r.Turned().Turned().r0, r.Turned().Turned().Turned().r0,
      r.Turned().Turned().Turned().Turned().r0, r.Turned().Turned().Turned().Turned().Turned().r0,
      r.Turned().Turned().Turned().Turned().Turned().Turned().r0)
  }

  lemma ConstantIsSpreadEarly(i: nat)
    requires i < 8
    ensures RoundConstant(i) == SpreadFrom(RegisterTable(i))
  {
    hide Plus;
    PlusIs();
  }

  lemma ConstantIsSpreadMiddle(i: nat)
    requires 8 <= i < 16
    ensures RoundConstant(i) == SpreadFrom(RegisterTable(i))
  {
    hide Plus;
    PlusIs();
  }

  lemma ConstantIsSpreadLate(i: nat)
    requires 16 <= i < 24
    ensures RoundConstant(i) == SpreadFrom(RegisterTable(i))
  {
    hide Plus;
    PlusIs();
  }

  lemma ConstantIsSpread(i: nat)
    requires i < 24
    ensures RoundConstant(i) == SpreadFrom(RegisterTable(i))
  {
    hide RoundConstant, SpreadFrom, RegisterTable;
    if i < 8 {
      ConstantIsSpreadEarly(i);
    } else if i < 16 {
      ConstantIsSpreadMiddle(i);
    } else {
      ConstantIsSpreadLate(i);
    }
  }

  lemma BitOverDouble(b: bool, half: nat)
    ensures (BitValue(b) + 2 * half) / 2 == half && ((BitValue(b) + 2 * half) % 2 == 1 <==> b)
  {
  }

  lemma DoubleProduct(p: nat, rest: nat)
    ensures (2 * p) * rest == 2 * (rest * p)
  {
  }

  lemma {:induction false} SumBits(b: bool, k: nat, rest: nat, z: nat)
    requires k > 0
    ensures Bit(BitValue(b) + Pow(2, k) * rest, z) <==> if z < k then z == 0 && b else Bit(rest, z - k)
  {
    HalfOfPow(k);
    hide Pow, BitValue;
    var half := rest * Pow(2, k - 1);
    DoubleProduct(Pow(2, k - 1), rest);
    BitOverDouble(b, half);
    assert BitValue(b) + Pow(2, k) * rest == BitValue(b) + 2 * half;
    if z > 0 {
      ProductBits(rest, k - 1, z - 1);
      hide Bit;
    }
  }

  lemma SpreadBits(b0: bool, b1: bool, b2: bool, b3: bool, b4: bool, b5: bool, b6: bool, z: nat)
    requires z < 64
    ensures Bit(Spread(b0, b1, b2, b3, b4, b5, b6), z) <==>
      (z == 0 && b0) || (z == 1 && b1) || (z == 3 && b2) || (z == 7 && b3) || (z == 15 && b4) || (z == 31 && b5)
      || (z == 63 && b6)
  {
    hide Bit, Pow;
    LaneModulus();
    SpreadPowers();
    var n6 := BitValue(b6);
    var n5 := BitValue(b5) + 0x1_00000000 * n6;
    var n4 := BitValue(b4) + 0x10000 * n5;
    var n3 := BitValue(b3) + 0x100 * n4;
    var n2 := BitValue(b2) + 16 * n3;
    var n1 := BitValue(b1) + 4 * n2;
    SumBits(b0, 1, n1, z);
    if z >= 1 { SumBits(b1, 2, n2, z - 1); }
    if z >= 3 { SumBits(b2, 4, n3, z - 3); }
    if z >= 7 { SumBits(b3, 8, n4, z - 7); }
    if z >= 15 { SumBits(b4, 16, n5, z - 15); }
    if z >= 31 { SumBits(b5, 32, n6, z - 31); }
    if z >= 63 { SumBits(b6, 1, 0, 0); }
  }

  lemma SpreadPowers()
    ensures Pow(2, 1) == 2 && Pow(2, 2) == 4 && Pow(2, 4) == 16 && Pow(2, 8) == 0x100
    ensures Pow(2, 16) == 0x10000 && Pow(2, 32) == 0x1_00000000
  {
    SmallPowers();
    assert Pow(2, 1) == 2 && Pow(2, 2) == 4 && Pow(2, 4) == 16;
    hide Pow;
    PowSquare(2, 8, 0x100);
    PowSquare(2, 16, 0x1_0000);
  }

  /** Bit by bit, the table of round constants is that of the shift register. */
  lemma ConstantBits(i: nat, z: nat)
    requires i < 24 && z < 64
    ensures Bit(RoundConstant(i), z) == ConstantBit(i, z)
  {
    hide Bit, RoundConstant, RegisterTable, Spread, RegisterAfter, Plus;
    RegisterIs(i);
    SevenTurns(7 * i);
    ConstantIsSpread(i);
    var r := RegisterTable(i);
    SpreadBits(r.r0, r.Turned().r0, r.Turned().Turned().r0, r.Turned().Turned().Turned().r0,
      r.Turned().Turned().Turned().Turned().r0, r.Turned().Turned().Turned().Turned().Turned().r0,
      r.Turned().Turned().Turned().Turned().Turned().Turned().r0, z);
  }

  // ---- The permutation ----

  lemma IotaAt(s: Lanes, round: nat, x: nat, y: nat)
    requires x < 5 && y < 5 && round < 24
    ensures At(Iota(s, round), x, y) ==
      if x == 0 && y == 0 then Xor(At(s, 0, 0), RoundConstant(round)) else At(s, x, y)
  {
    hide Xor, RoundConstant;
  }

  lemma FirstLane(n: nat)
    requires n < 1600
    ensures n < 64 <==> X(n) == 0 && Y(n) == 0
    ensures n < 64 ==> Z(n) == n
  {
    IndexWhole(n);
  }

  lemma IotaIs(s: Lanes, round: nat)
    requires round < 24
    ensures StateOf(Iota(s, round)) == IotaBits(StateOf(s), round)
  {
    hide Bit, Iota, Xor, RoundConstant, StateOf, At, X, Y, Z, ConstantBit;
    forall n: nat | n < 1600 ensures StateOf(Iota(s, round))[n] == IotaBits(StateOf(s), round)[n] {
      StateBit(Iota(s, round), n);
      StateBit(s, n);
      IotaAt(s, round, X(n), Y(n));
      FirstLane(n);
      if n < 64 {
        XorLane(At(s, 0, 0), RoundConstant(round), n);
        ConstantBits(round, n);
      }
    }
  }

  /** On lanes, the five step mappings are those of the standard. */
  lemma StepMappings(s: Lanes, round: nat)
    requires round < 24
    ensures StateOf(Theta(s)) == ThetaBits(StateOf(s))
    ensures StateOf(Rho(s)) == RhoBits(StateOf(s))
    ensures StateOf(Pi(s)) == PiBits(StateOf(s))
    ensures StateOf(Chi(s)) == ChiBits(StateOf(s))
    ensures StateOf(Iota(s, round)) == IotaBits(StateOf(s), round)
  {
    hide StateOf, Theta, ThetaBits, Rho, RhoBits, Pi, PiBits, Chi, ChiBits, Iota, IotaBits;
    ThetaIs(s);
    RhoIs(s);
    PiIs(s);
    ChiIsBits(s);
    IotaIs(s, round);
  }

  lemma {:induction false} RoundsAre(s: Lanes, n: nat)
    requires n <= 24
    ensures StateOf(Rounds(s, n)) == RoundsBits(StateOf(s), n)
  {
    hide StateOf, Theta, ThetaBits, Rho, RhoBits, Pi, PiBits, Chi, ChiBits, Iota, IotaBits;
    if n > 0 {
      RoundsAre(s, n - 1);
      var before := Rounds(s, n - 1);
      ThetaIs(before);
      RhoIs(Theta(before));
      PiIs(Rho(Theta(before)));
      ChiIsBits(Pi(Rho(Theta(before))));
      IotaIs(Chi(Pi(Rho(Theta(before)))), n - 1);
    }
  }

  // ---- Bytes and bits ----

  /** The bits of a byte string, the bits of every byte least significant first (section B.1 of FIPS 202). */
  function BitString(s: seq<Byte>): (r: seq<bool>)
    ensures |r| == 8 * |s|
  {
    seq(8 * |s|, i requires 0 <= i < 8 * |s| => Bit(s[i / 8], i % 8))
  }

  lemma BitsOfConcat(a: seq<Byte>, b: seq<Byte>)
    ensures BitString(a + b) == BitString(a) + BitString(b)
  {
    hide Bit;
    var whole, parts := BitString(a + b), BitString(a) + BitString(b);
    forall i: nat | i < |whole| ensures whole[i] == parts[i] {
      if i >= 8 * |a| {
        assert (i - 8 * |a|) / 8 == i / 8 - |a| && (i - 8 * |a|) % 8 == i % 8;
      }
    }
  }

  lemma BitsOfSlice(s: seq<Byte>, i: nat, j: nat)
    requires i <= j <= |s|
    ensures BitString(s[i..j]) == BitString(s)[8 * i..8 * j]
  {
    hide Bit;
    var part, whole := BitString(s[i..j]), BitString(s);
    forall k: nat | k < |part| ensures part[k] == whole[8 * i + k] {
      assert (8 * i + k) / 8 == i + k / 8 && (8 * i + k) % 8 == k % 8;
    }
  }

  lemma SplitLittleEndian(s: seq<Byte>)
    requires s != []
    ensures LittleEndian(s) % 256 == s[0] && LittleEndian(s) / 256 == LittleEndian(s[1..])
  {
    var rest := LittleEndian(s[1..]);
    assert LittleEndian(s) == 256 * rest + s[0];
    hide LittleEndian;
    DivisionIs(LittleEndian(s), 256, rest, s[0]);
  }

  /** The bits of the bytes are the bits of the integer. */
  lemma {:induction false} LittleEndianBits(s: seq<Byte>, i: nat)
    requires i < 8 * |s|
    ensures Bit(LittleEndian(s), i) <==> Bit(s[i / 8], i % 8)
  {
    hide Bit, Pow;
    SplitLittleEndian(s);
    SmallPowers();
    if i < 8 {
      RemainderBits(LittleEndian(s), 8, i);
    } else {
      QuotientBits(LittleEndian(s), 8, i - 8);
      LittleEndianBits(s[1..], i - 8);
    }
  }

  lemma LaneBits(s: seq<Byte>, z: nat)
    requires |s| == 8 && z < 64
    ensures Bit(LaneOf(s), z) == BitString(s)[z]
  {
    LittleEndianBits(s, z);
    hide Bit;
  }

  lemma BytesBits(v: Lane, z: nat)
    requires z < 64
    ensures BitString(BytesOf(v))[z] == Bit(v, z)
  {
    hide Bit, BytesOf, LaneOf, BitString;
    LaneReads(v);
    LaneBits(BytesOf(v), z);
  }

  // ---- Blocks ----

  lemma LanePlace(n: nat)
    requires n < 1600
    ensures LaneIndex(5 * X(n) + Y(n)) == n / 64 && (n < BIT_RATE <==> LaneIndex(5 * X(n) + Y(n)) < 17)
  {
    LaneParts(X(n), Y(n));
  }

  lemma BlockBit(b: Block, n: nat)
    requires n < BIT_RATE
    ensures Bit(BlockLane(b, n / 64), n % 64) == BitString(b)[n]
  {
    hide Bit, BitString;
    var i := n / 64;
    LaneBits(b[8 * i..8 * i + 8], n % 64);
    BitsOfSlice(b, 8 * i, 8 * i + 8);
  }

  lemma WithBlockAt(s: Lanes, b: Block, x: nat, y: nat)
    requires x < 5 && y < 5
    ensures At(XorBlock(s, b), x, y) == WithBlock(s, b, 5 * x + y) && At(s, x, y) == s[5 * x + y]
  {
    hide WithBlock;
  }

  lemma AddIs(s: Lanes, b: Block)
    ensures StateOf(XorBlock(s, b)) == AddBits(StateOf(s), BitString(b))
  {
    hide Bit, XorBlock, Xor, StateOf, At, X, Y, BitString, BlockLane, LaneIndex;
    forall n: nat | n < 1600 ensures StateOf(XorBlock(s, b))[n] == AddBits(StateOf(s), BitString(b))[n] {
      var k: nat := 5 * X(n) + Y(n);
      StateBit(XorBlock(s, b), n);
      StateBit(s, n);
      WithBlockAt(s, b, X(n), Y(n));
      LanePlace(n);
      if n < BIT_RATE {
        XorLane(s[k], BlockLane(b, n / 64), Z(n));
        BlockBit(b, n);
      }
    }
  }

  lemma {:induction false} AbsorbIs(s: Lanes, m: seq<Byte>)
    ensures StateOf(Absorb(s, m)) == AbsorbBits(StateOf(s), BitString(m))
    decreases |m|
  {
    hide StateOf, Rounds, RoundsBits, XorBlock, AddBits, BitString;
    if |m| >= RATE {
      var added := XorBlock(s, m[..RATE]);
      AddIs(s, m[..RATE]);
      RoundsAre(added, 24);
      BitsOfSlice(m, 0, RATE);
      BitsOfSlice(m, RATE, |m|);
      WholeSlices(m, BitString(m));
      AbsorbIs(Permute(added), m[RATE..]);
    }
  }

  lemma WholeSlices(m: seq<Byte>, bits: seq<bool>)
    requires |m| >= RATE && |bits| == 8 * |m|
    ensures m[0..RATE] == m[..RATE] && m[RATE..|m|] == m[RATE..]
    ensures bits[8 * 0..8 * RATE] == bits[..BIT_RATE] && bits[8 * RATE..8 * |m|] == bits[BIT_RATE..]
  {
  }

  lemma NoLanesAre()
    ensures StateOf(NoLanes()) == NoBits(1600)
  {
    hide Bit;
    forall n: nat | n < 1600 ensures !StateOf(NoLanes())[n] {
      ZeroBits(Z(n));
    }
  }

  lemma OutputLane(s: Lanes, i: nat, z: nat)
    requires i < 4 && z < 64
    ensures BitString(BytesOf(At(s, i, 0)))[z] == StateOf(s)[64 * i + z]
  {
    hide Bit, BytesOf, BitString, StateOf, At;
    BytesBits(At(s, i, 0), z);
    StateReads(s, i, 0, z);
  }

  lemma SqueezeIs(s: Lanes)
    ensures BitString(Squeeze(s)) == StateOf(s)[..256]
  {
    hide Bit, BytesOf, BitString, StateOf, At;
    var a, b, c, d := BytesOf(At(s, 0, 0)), BytesOf(At(s, 1, 0)), BytesOf(At(s, 2, 0)), BytesOf(At(s, 3, 0));
    BitsOfConcat(a + b + c, d);
    BitsOfConcat(a + b, c);
    BitsOfConcat(a, b);
    var bits := BitString(a) + BitString(b) + BitString(c) + BitString(d);
    forall n: nat | n < 256 ensures bits[n] == StateOf(s)[n] {
      OutputLane(s, n / 64, n % 64);
    }
  }

  // ---- The padding ----

  lemma {:induction false} ZerosAre(n: nat, i: nat)
    requires i < n
    ensures Zeros(n)[i] == 0
  {
    if i < n - 1 {
      ZerosAre(n - 1, i);
    }
  }

  lemma BitsOfZeros(n: nat)
    ensures BitString(Zeros(n)) == NoBits(8 * n)
  {
    hide Bit, Zeros;
    forall i: nat | i < 8 * n ensures !BitString(Zeros(n))[i] {
      ZerosAre(n, i / 8);
      ZeroBits(i % 8);
    }
  }

  lemma ByteBits(b: Byte)
    ensures BitString([b]) == [Bit(b, 0), Bit(b, 1), Bit(b, 2), Bit(b, 3), Bit(b, 4), Bit(b, 5), Bit(b, 6), Bit(b, 7)]
  {
    hide Bit;
  }

  lemma OneByteBits()
    ensures BitString([0x81]) == [true] + NoBits(6) + [true]
    ensures BitString([0x01]) == [true] + NoBits(7)
    ensures BitString([0x80]) == NoBits(7) + [true]
  {
    ByteBits(0x81);
    ByteBits(0x01);
    ByteBits(0x80);
    hide BitString;
  }

  lemma LongPaddingBits(n: nat)
    ensures BitString([0x01] + Zeros(n) + [0x80]) == [true] + NoBits(8 * n + 14) + [true]
  {
    hide BitString, Zeros;
    OneByteBits();
    BitsOfZeros(n);
    BitsOfConcat([0x01] + Zeros(n), [0x80]);
    BitsOfConcat([0x01], Zeros(n));
    assert NoBits(7) + BitString(Zeros(n)) + NoBits(7) == NoBits(8 * n + 14);
  }

  /** The padding bytes of a message are the padding bits of its length. */
  lemma PaddingIsTenStarOne(n: nat)
    ensures BitString(Padding(n)) == PadTenStarOne(8 * RATE, 8 * n)
  {
    hide BitString, Zeros;
    var q := RATE - n % RATE;
    ZeroCount(n);
    assert PadTenStarOne(8 * RATE, 8 * n) == [true] + NoBits(8 * q - 2) + [true];
    if q == 1 {
      OneByteBits();
    } else {
      LongPaddingBits(q - 2);
    }
  }

  lemma ZeroCount(n: nat)
    ensures (-((8 * n) as int) - 2) % (8 * RATE) == 8 * (RATE - n % RATE) - 2
  {
    var k, r := n / RATE, n % RATE;
    assert -(8 * n) - 2 == (8 * RATE) * (-k - 1) + (8 * (RATE - r) - 2);
  }

  /** Bit for bit, the padded message is the message followed by pad10*1, and fills its blocks. */
  lemma PaddedMessage(m: seq<Byte>)
    ensures BitString(m + Padding(|m|)) == BitString(m) + PadTenStarOne(8 * RATE, 8 * |m|)
    ensures |m + Padding(|m|)| % RATE == 0
  {
    hide BitString, PadTenStarOne, Padding;
    BitsOfConcat(m, Padding(|m|));
    PaddingIsTenStarOne(|m|);
    WholeBlocks(|m|);
  }

  lemma WholeBlocks(n: nat)
    ensures (n + (RATE - n % RATE)) % RATE == 0
  {
    assert n + (RATE - n % RATE) == RATE * (n / RATE + 1);
  }

  lemma {:induction false} OutputIs(p: seq<Byte>)
    ensures BitString(Squeeze(Absorb(NoLanes(), p))) == OutputOf(BitString(p))
  {
    hide Squeeze, Absorb, AbsorbBits, StateOf, BitString;
    NoLanesAre();
    AbsorbIs(NoLanes(), p);
    SqueezeIs(Absorb(NoLanes(), p));
  }

  /** Bit for bit, the digest is KECCAK[512] of the message, if its length is not 135 modulo 136. */
  lemma DigestIsKeccak(m: seq<Byte>)
    requires |m| % RATE != RATE - 1
    ensures BitString(Digest(m)) == SpongeBits(BitString(m))
  {
    hide Digest, Squeeze, Absorb, OutputOf, BitString, Padding, PadTenStarOne;
    DigestIsSponge(m);
    PaddedMessage(m);
    OutputIs(m + Padding(|m|));
  }

  /** For the other lengths it is the output for a message that is filled up with a one and seven zeros. */
  lemma DigestWithoutFinalOne(m: seq<Byte>)
    requires |m| % RATE == RATE - 1
    ensures BitString(Digest(m)) == OutputOf(BitString(m) + [true] + NoBits(7))
  {
    hide Digest, Finish, Filled, Squeeze, Absorb, OutputOf, BitString;
    PaddingIsLost(m);
    FinishIs(m, [0x01]);
    OutputIs(m + [0x01]);
    BitsOfConcat(m, [0x01]);
    OneByteBits();
    assert BitString(m) + ([true] + NoBits(7)) == BitString(m) + [true] + NoBits(7);
  }
}
