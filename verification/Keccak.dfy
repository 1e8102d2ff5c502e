/** Keccak-256 as a streaming object. */
module Keccak {
  // The object and the sponge of section 4 of FIPS 202 that it should be.

  import opened Words
  import opened KeccakF

  // ---- The permutation, step by step ----

  method ApplyTheta(s0: Lanes) returns (s: Lanes)
    ensures s == Theta(s0)
  {
    hide Xor, Rol, Column;
    var c := seq(5, x requires 0 <= x < 5 => Column(s0, x));
    var d := seq(5, x requires 0 <= x < 5 => Xor(c[(x + 4) % 5], Rol(c[(x + 1) % 5], 1)));
    s := AddParity(s0, d);
  }

  /** The rotation by one as `digest` writes it. */
  function RolByOne(v: Lane): (r: Lane)
    ensures r == Rol(v, 1)
  {
    PowPositive(2, 63);
    assert Pow(2, 1) == 2;
    BitOr(v * 2, v / Pow(2, 63)) % LANE_MODULUS
  }

  /** The same, with the rotation by one written out. */
  method ApplyThetaInline(s0: Lanes) returns (s: Lanes)
    ensures s == Theta(s0)
  {
    hide Xor, Column, Rol, RolByOne;
    var c := seq(5, x requires 0 <= x < 5 => Column(s0, x));
    var d := seq(5, x requires 0 <= x < 5 => Xor(c[(x + 4) % 5], RolByOne(c[(x + 1) % 5])));
    s := AddParity(s0, d);
  }

  method AddParity(s0: Lanes, d: seq<Lane>) returns (s: Lanes)
    requires |d| == 5 && forall x :: 0 <= x < 5 ==> d[x] == Parity(s0, x)
    ensures s == Theta(s0)
  {
    hide Xor, Parity;
    s := s0;
    for x := 0 to 5
      invariant forall k :: 0 <= k < 25 ==> s[k] == if k < 5 * x then Theta(s0)[k] else s0[k]
    {
      for y := 0 to 5
        invariant forall k :: 0 <= k < 25 ==> s[k] == if k < 5 * x + y then Theta(s0)[k] else s0[k]
      {
        LaneParts(x, y);
        s := s[5 * x + y := Xor(s[5 * x + y], d[x])];
      }
    }
  }

  /** Where lane `k` goes, and where lane `i` comes from. */
  function Target(k: nat): (t: nat)
    requires k < 25
    ensures t < 25
  {
    5 * (k % 5) + (2 * (k / 5) + 3 * (k % 5)) % 5
  }

  function Source(i: nat): (k: nat)
    requires i < 25
    ensures k < 25
  {
    5 * ((i / 5 + 3 * (i % 5)) % 5) + i / 5
  }

  /** The plane of pi determines the sheet again. */
  lemma SheetFromPlane(x: nat, y: nat)
    requires x < 5 && y < 5
    ensures (y + 3 * ((2 * x + 3 * y) % 5)) % 5 == x
  {
    var q := (2 * x + 3 * y) / 5;
    assert y + 3 * ((2 * x + 3 * y) % 5) == 5 * (x + 2 * y - 3 * q) + x;
  }

  lemma SourceOfTarget(k: nat)
    requires k < 25
    ensures Source(Target(k)) == k
  {
    var x, y := k / 5, k % 5;
    LaneParts(y, (2 * x + 3 * y) % 5);
    SheetFromPlane(x, y);
    assert Target(k) / 5 == y && Target(k) % 5 == (2 * x + 3 * y) % 5;
  }

  lemma PlaneFromSheet(x: nat, y: nat)
    requires x < 5 && y < 5
    ensures (2 * ((x + 3 * y) % 5) + 3 * x) % 5 == y
  {
    var q := (x + 3 * y) / 5;
    assert 2 * ((x + 3 * y) % 5) + 3 * x == 5 * (x + y - 2 * q) + y;
  }

  lemma TargetOfSource(i: nat)
    requires i < 25
    ensures Target(Source(i)) == i
  {
    var x, y := i / 5, i % 5;
    LaneParts((x + 3 * y) % 5, x);
    PlaneFromSheet(x, y);
    assert Source(i) / 5 == (x + 3 * y) % 5 && Source(i) % 5 == x;
  }

  function RotatedLane(s: Lanes, k: nat): Lane
    requires k < 25
  {
    Rol(s[k], Rotation(k / 5, k % 5))
  }

  /** The first `n` lanes are where rho and pi send them. */
  ghost predicate Scattered(s: Lanes, b: Lanes, n: nat) {
    forall k :: 0 <= k < n && k < 25 ==> b[Target(k)] == RotatedLane(s, k)
  }

  lemma ScatterOne(s: Lanes, b: Lanes, n: nat)
    requires n < 25 && Scattered(s, b, n)
    ensures Scattered(s, b[Target(n) := RotatedLane(s, n)], n + 1)
  {
    hide Target, Source, RotatedLane;
    forall k | 0 <= k < n ensures Target(k) != Target(n) {
      SourceOfTarget(k);
      SourceOfTarget(n);
    }
  }

  lemma AllScattered(s: Lanes, b: Lanes)
    requires Scattered(s, b, 25)
    ensures b == Pi(Rho(s))
  {
    hide Pi, Rho, Source, Target, RotatedLane;
    forall i | 0 <= i < 25 ensures b[i] == Pi(Rho(s))[i] {
      TargetOfSource(i);
      assert b[Target(Source(i))] == RotatedLane(s, Source(i));
      MovedLane(s, i);
    }
  }

  lemma MovedLane(s: Lanes, i: nat)
    requires i < 25
    ensures Pi(Rho(s))[i] == RotatedLane(s, Source(i))
  {
    hide Pi, Rho, Source, RotatedLane;
    PiLane(Rho(s), i);
    RhoLane(s, Source(i));
  }

  lemma PiLane(s: Lanes, i: nat)
    requires i < 25
    ensures Pi(s)[i] == s[Source(i)]
  {
    PiReads(s, i);
    var u: nat := (i / 5 + 3 * (i % 5)) % 5;
    var x: nat := i / 5;
    assert Source(i) == 5 * u + x;
    hide Pi, Source;
    assert At(s, u, x) == s[5 * u + x];
  }

  lemma PiReads(s: Lanes, i: nat)
    requires i < 25
    ensures Pi(s)[i] == At(s, (i / 5 + 3 * (i % 5)) % 5, i / 5)
  {
    hide At;
  }

  lemma RhoLane(s: Lanes, k: nat)
    requires k < 25
    ensures Rho(s)[k] == RotatedLane(s, k)
  {
    hide Rol, Rotation;
  }

  method ApplyRhoPi(s: Lanes) returns (b: Lanes)
    ensures b == Pi(Rho(s))
  {
    hide Rol, Rotation, Scattered;
    b := NoLanes();
    assert Scattered(s, b, 0) by { NoneScattered(s, b); }
    for x := 0 to 5
      invariant Scattered(s, b, 5 * x)
    {
      for y := 0 to 5
        invariant Scattered(s, b, 5 * x + y)
      {
        LaneParts(x, y);
        ScatterOne(s, b, 5 * x + y);
        b := b[5 * y + (2 * x + 3 * y) % 5 := Rol(At(s, x, y), Rotation(x, y))];
      }
    }
    AllScattered(s, b);
  }

  lemma NoneScattered(s: Lanes, b: Lanes)
    ensures Scattered(s, b, 0)
  {
  }

  /** The same, with the rotation written out and a rotation by zero left out. */
  method ApplyRhoPiInline(s: Lanes) returns (b: Lanes)
    ensures b == Pi(Rho(s))
  {
    hide Rotation, Scattered;
    b := NoLanes();
    assert Scattered(s, b, 0) by { NoneScattered(s, b); }
    for x := 0 to 5
      invariant Scattered(s, b, 5 * x)
    {
      for y := 0 to 5
        invariant Scattered(s, b, 5 * x + y)
      {
        LaneParts(x, y);
        ScatterOne(s, b, 5 * x + y);
        var v := At(s, x, y);
        var shift := Rotation(x, y);
        var rotated := RotateInline(v, shift);
        b := b[5 * y + (2 * x + 3 * y) % 5 := rotated];
      }
    }
    AllScattered(s, b);
  }

  method RotateInline(v: Lane, shift: nat) returns (r: Lane)
    requires shift < 64
    ensures r == Rol(v, shift)
  {
    if shift != 0 {
      PowPositive(2, 64 - shift);
      r := BitOr(v * Pow(2, shift), v / Pow(2, 64 - shift)) % LANE_MODULUS;
    } else {
      RolZero(v);
      r := v;
    }
  }

  method ApplyChi(s0: Lanes, b: Lanes) returns (s: Lanes)
    ensures s == Chi(b)
  {
    hide Xor, AndNot, ChiLane;
    s := s0;
    for x := 0 to 5
      invariant forall k :: 0 <= k < 5 * x ==> s[k] == ChiLane(b, k / 5, k % 5)
    {
      for y := 0 to 5
        invariant forall k :: 0 <= k < 5 * x + y ==> s[k] == ChiLane(b, k / 5, k % 5)
      {
        LaneParts(x, y);
        ChiIs(b, x, y);
        s := s[5 * x + y := Xor(At(b, x, y), AndNot(At(b, (x + 1) % 5, y), At(b, (x + 2) % 5, y)))];
      }
    }
  }

  lemma ChiIs(b: Lanes, x: nat, y: nat)
    requires x < 5 && y < 5
    ensures ChiLane(b, x, y) == Xor(At(b, x, y), AndNot(At(b, (x + 1) % 5, y), At(b, (x + 2) % 5, y)))
  {
  }

  method KeccakF1600(s0: Lanes) returns (s: Lanes)
    ensures s == Permute(s0)
  {
    hide Theta, Rho, Pi, Chi, Xor, RoundConstant;
    s := s0;
    for round := 0 to 24
      invariant s == Rounds(s0, round)
    {
      s := ApplyTheta(s);
      var b := ApplyRhoPi(s);
      s := ApplyChi(s, b);
      s := s[0 := Xor(s[0], RoundConstant(round))];
    }
  }

  /** The copy of the permutation inside `digest`: another text, the same function. */
  method KeccakF1600Inline(s0: Lanes) returns (s: Lanes)
    ensures s == Permute(s0)
  {
    hide Theta, Rho, Pi, Chi, Xor, RoundConstant;
    s := s0;
    for round := 0 to 24
      invariant s == Rounds(s0, round)
    {
      s := ApplyThetaInline(s);
      var b := ApplyRhoPiInline(s);
      s := ApplyChi(s, b);
      s := s[0 := Xor(s[0], RoundConstant(round))];
    }
  }

  // ---- Blocks ----

  const RATE: nat := 136

  function LittleEndian(s: seq<Byte>): (n: nat)
    ensures n < Pow(256, |s|)
  {
    if s == [] then 0 else s[0] + 256 * LittleEndian(s[1..])
  }

  function ToLittleEndian(n: nat, k: nat): (s: seq<Byte>)
    ensures |s| == k
  {
    if k == 0 then [] else [n % 256] + ToLittleEndian(n / 256, k - 1)
  }

  function LaneOf(s: seq<Byte>): Lane
    requires |s| == 8
  {
    LaneModulus();
    LittleEndian(s)
  }

  function BytesOf(v: Lane): (s: seq<Byte>)
    ensures |s| == 8
  {
    ToLittleEndian(v, 8)
  }

  type Block = b: seq<Byte> | |b| == RATE witness seq(RATE, i => 0)

  function BlockLane(b: Block, i: nat): Lane
    requires i < 17
  {
    LaneOf(b[8 * i..8 * i + 8])
  }

  /** The block is added to the first 17 lanes; lane `i` of the block is lane (i mod 5, i div 5) of the state. */
  function XorBlock(s: Lanes, b: Block): Lanes {
    seq(25, k requires 0 <= k < 25 => WithBlock(s, b, k))
  }

  function WithBlock(s: Lanes, b: Block, k: nat): Lane
    requires k < 25
  {
    if LaneIndex(k) < 17 then Xor(s[k], BlockLane(b, LaneIndex(k))) else s[k]
  }

  /** The place in a block of lane `k` of the state. */
  function LaneIndex(k: nat): nat {
    k / 5 + 5 * (k % 5)
  }

  method AddBlock(s0: Lanes, b: Block) returns (s: Lanes)
    ensures s == XorBlock(s0, b)
  {
    hide Xor, BlockLane;
    s := s0;
    for i := 0 to 17
      invariant forall k :: 0 <= k < 25 ==> s[k] == if LaneIndex(k) < i then WithBlock(s0, b, k) else s0[k]
    {
      var k := 5 * (i % 5) + i / 5;
      LaneParts(i % 5, i / 5);
      OneLane(i);
      s := s[k := Xor(s[k], BlockLane(b, i))];
    }
  }

  lemma OneLane(i: nat)
    requires i < 25
    ensures forall k :: 0 <= k < 25 ==> (LaneIndex(k) == i <==> k == 5 * (i % 5) + i / 5)
  {
  }

  // ---- The stream ----

  /** All whole blocks of `m`, one after another. */
  function Absorb(s: Lanes, m: seq<Byte>): Lanes
    decreases |m|
  {
    if |m| < RATE then s else Absorb(Permute(XorBlock(s, m[..RATE])), m[RATE..])
  }

  /** What is left of `m` behind its whole blocks. */
  function Rest(m: seq<Byte>): (r: seq<Byte>)
    ensures |r| == |m| % RATE
    decreases |m|
  {
    if |m| < RATE then m else Rest(m[RATE..])
  }

  function Zeros(n: nat): (z: seq<Byte>)
    ensures |z| == n
  {
    if n == 0 then [] else Zeros(n - 1) + [0]
  }

  /** The last block as `digest` builds it: only its first 136 bytes are used. */
  function LastBlock(buf: seq<Byte>): Block
    requires |buf| < RATE
  {
    (buf + [0x01] + Zeros(if |buf| + 1 < RATE - 1 then RATE - 2 - |buf| else 0) + [0x80])[..RATE]
  }

  /** The first four lanes of the first plane. */
  function Squeeze(s: Lanes): seq<Byte> {
    BytesOf(At(s, 0, 0)) + BytesOf(At(s, 1, 0)) + BytesOf(At(s, 2, 0)) + BytesOf(At(s, 3, 0))
  }

  function NoLanes(): Lanes {
    seq(25, i => 0)
  }

  /** The digest of a message. */
  function Digest(m: seq<Byte>): seq<Byte> {
    Finish(m, LastBlock(Rest(m)))
  }

  /** The output for a message whose last block has been built. */
  function Finish(m: seq<Byte>, last: Block): seq<Byte> {
    Squeeze(Permute(XorBlock(Absorb(NoLanes(), m), last)))
  }

  /** What is left of a message, filled up by `pad`. */
  function Filled(m: seq<Byte>, pad: seq<Byte>): Block
    requires |m| % RATE + |pad| == RATE
  {
    Rest(m) + pad
  }

  class Keccak256 {
    var state: Lanes
    var buffer: seq<Byte>
    /** Everything passed to `Update` so far. */
    ghost var message: seq<Byte>

    ghost predicate Valid()
      reads this
    {
      |buffer| < RATE && buffer == Rest(message) && state == Absorb(NoLanes(), message)
    }

    constructor ()
      ensures Valid() && message == []
    {
      state := NoLanes();
      buffer := [];
      message := [];
    }

    method Update(data: seq<Byte>)
      requires Valid()
      modifies this
      ensures Valid() && message == old(message) + data
    {
      hide Permute, XorBlock;
      AbsorbConcat(NoLanes(), message, data);
      message := message + data;
      buffer := buffer + data;
      while |buffer| >= RATE
        invariant Absorb(state, buffer) == Absorb(NoLanes(), message) && Rest(buffer) == Rest(message)
        invariant message == old(message) + data
        decreases |buffer|
      {
        var block := buffer[..RATE];
        buffer := buffer[RATE..];
        state := AddBlock(state, block);
        state := KeccakF1600(state);
      }
    }

    /** Changes nothing: the state and the buffer are copied first. */
    method DigestNow() returns (out: seq<Byte>)
      requires Valid()
      ensures out == Digest(message)
    {
      hide Permute, XorBlock, BytesOf;
      var buf := buffer + [0x01];
      ghost var n := |buf|;
      while |buf| < RATE - 1
        invariant n <= |buf| <= (if n < RATE - 1 then RATE - 1 else n)
        invariant buf == buffer + [0x01] + Zeros(|buf| - n)
      {
        buf := buf + [0x00];
      }
      buf := buf + [0x80];
      var s := AddBlock(state, buf[..RATE]);
      s := KeccakF1600Inline(s);
      out := [];
      for i := 0 to 4
        invariant out == Squeeze(s)[..8 * i]
      {
        LaneParts(i % 5, i / 5);
        SqueezeStep(s, i);
        out := out + BytesOf(At(s, i % 5, i / 5));
      }
      assert Squeeze(s)[..32] == Squeeze(s);
    }
  }

  lemma SqueezeStep(s: Lanes, i: nat)
    requires i < 4
    ensures Squeeze(s)[..8 * i + 8] == Squeeze(s)[..8 * i] + BytesOf(At(s, i % 5, i / 5))
  {
    hide BytesOf;
  }

  /** Absorbing in two parts is absorbing at once. */
  lemma {:induction false} AbsorbConcat(s: Lanes, a: seq<Byte>, b: seq<Byte>)
    ensures Absorb(s, a + b) == Absorb(Absorb(s, a), Rest(a) + b) && Rest(a + b) == Rest(Rest(a) + b)
    decreases |a|
  {
    hide Permute, XorBlock;
    if |a| >= RATE {
      assert (a + b)[..RATE] == a[..RATE] && (a + b)[RATE..] == a[RATE..] + b;
      AbsorbConcat(Permute(XorBlock(s, a[..RATE])), a[RATE..], b);
    }
  }

  /** `keccak256`: one object, one update, one digest. */
  method OneShot(data: seq<Byte>) returns (out: seq<Byte>)
    ensures out == Digest(data)
  {
    var k := new Keccak256();
    k.Update(data);
    assert [] + data == data;
    out := k.DigestNow();
  }

  // ---- The sponge ----

  /** What pad10*1 puts behind `n` bytes. */
  function Padding(n: nat): (p: seq<Byte>)
    ensures |p| == RATE - n % RATE
  {
    var q := RATE - n % RATE;
    if q == 1 then [0x81] else [0x01] + Zeros(q - 2) + [0x80]
  }

  /** The sponge with rate 1088 and an output of 256 bits: pad, absorb every block, squeeze once. */
  function Sponge(m: seq<Byte>): seq<Byte> {
    Squeeze(Absorb(NoLanes(), m + Padding(|m|)))
  }

  /** `digest` pads a block right exactly when two bytes of padding fit into it. */
  lemma LastBlockIsPadded(buf: seq<Byte>)
    requires |buf| < RATE
    ensures LastBlock(buf) == buf + Padding(|buf|) <==> |buf| != RATE - 1
    ensures |buf| == RATE - 1 ==> LastBlock(buf) == buf + [0x01]
  {
    hide Zeros;
    if |buf| < RATE - 1 {
      var q := RATE - |buf|;
      var whole := buf + [0x01] + Zeros(q - 2) + [0x80];
      assert whole[..RATE] == whole;
      assert whole == buf + ([0x01] + Zeros(q - 2) + [0x80]);
    } else {
      assert Padding(|buf|) == [0x81];
      assert LastBlock(buf)[RATE - 1] == 0x01;
      assert (buf + [0x81])[RATE - 1] == 0x81;
      assert LastBlock(buf) == buf + [0x01];
    }
  }

  lemma AbsorbOne(s: Lanes, b: Block)
    ensures Absorb(s, b) == Permute(XorBlock(s, b))
  {
    hide Permute, XorBlock;
    assert b[..RATE] == b;
  }

  lemma OneBytePadding(n: nat)
    requires n % RATE == RATE - 1
    ensures Padding(n) == [0x81]
  {
  }

  lemma SamePadding(m: seq<Byte>)
    ensures Padding(|m|) == Padding(|Rest(m)|)
  {
    hide Zeros, Rest;
  }

  /** Filling up the last block is absorbing the message with its filling. */
  lemma FinishIs(m: seq<Byte>, pad: seq<Byte>)
    requires |m| % RATE + |pad| == RATE
    ensures Finish(m, Filled(m, pad)) == Squeeze(Absorb(NoLanes(), m + pad))
  {
    hide Permute, XorBlock, Squeeze, Rest, Absorb, NoLanes;
    AbsorbConcat(NoLanes(), m, pad);
    AbsorbOne(Absorb(NoLanes(), m), Rest(m) + pad);
  }

  lemma SpongeLastBlock(m: seq<Byte>)
    ensures Padding(|m|) == Padding(|Rest(m)|)
    ensures Sponge(m) == Finish(m, Filled(m, Padding(|m|)))
  {
    hide Finish, Squeeze, Zeros, Padding, Rest, Absorb, NoLanes, Filled;
    SamePadding(m);
    FinishIs(m, Padding(|m|));
  }

  /** The object computes the sponge for every message that does not end one byte before a block does. */
  lemma DigestIsSponge(m: seq<Byte>)
    requires |m| % RATE != RATE - 1
    ensures Digest(m) == Sponge(m)
  {
    hide Finish, Padding, LastBlock, Sponge;
    SpongeLastBlock(m);
    LastBlockIsPadded(Rest(m));
  }

  /** For the other messages the final bit of the padding is lost: the digest is that of another last block. */
  lemma PaddingIsLost(m: seq<Byte>)
    requires |m| % RATE == RATE - 1
    ensures Digest(m) == Finish(m, Filled(m, [0x01]))
    ensures Sponge(m) == Finish(m, Filled(m, [0x81]))
  {
    hide Finish, Padding, LastBlock, Sponge;
    OneBytePadding(|m|);
    SpongeLastBlock(m);
    LastBlockIsPadded(Rest(m));
  }

  /** The block that is permuted last is the padded one if and only if the message is not one byte short of a block. */
  lemma LastBlockIff(m: seq<Byte>)
    ensures LastBlock(Rest(m)) == Filled(m, Padding(|m|)) <==> |m| % RATE != RATE - 1
  {
    hide Padding, LastBlock, Finish;
    SpongeLastBlock(m);
    LastBlockIsPadded(Rest(m));
  }

  // ---- Lanes and bytes ----

  lemma {:induction false} LittleEndianReads(n: nat, k: nat)
    requires n < Pow(256, k)
    ensures LittleEndian(ToLittleEndian(n, k)) == n
  {
    if k > 0 {
      LittleEndianReads(n / 256, k - 1);
      assert ToLittleEndian(n, k)[1..] == ToLittleEndian(n / 256, k - 1);
    }
  }

  /** A lane survives being written as bytes. */
  lemma LaneReads(v: Lane)
    ensures LaneOf(BytesOf(v)) == v
  {
    LaneModulus();
    LittleEndianReads(v, 8);
  }
}
