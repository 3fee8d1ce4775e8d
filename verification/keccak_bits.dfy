/** The permutation of section 3 of FIPS 202 on state arrays of bits, and that the
    form of keccak.dfy, on lanes, computes it.  A[x, y, z] is BitAt(a, x, y, z). */
module KeccakBits {
  import opened Lanes
  import opened RhoWalk
  import RoundConstants
  import opened Keccak

  type Sheet = seq<bool>  // the 64 bits of one lane

  /** A state array: 25 lanes of 64 bits. */
  predicate IsArray(a: seq<Sheet>) {
    |a| == 25 && forall k :: 0 <= k < 25 ==> |a[k]| == 64
  }

  predicate BitAt(a: seq<Sheet>, x: nat, y: nat, z: nat)
    requires IsArray(a) && x < 5 && y < 5 && z < 64
  {
    a[At(x, y)][z]
  }

  // ----- Sections 3.2.1 to 3.2.5 -----

  /** C[x, z] of section 3.2.1. */
  predicate Parity(a: seq<Sheet>, x: nat, z: nat)
    requires IsArray(a) && x < 5 && z < 64
  {
    (((BitAt(a, x, 0, z) != BitAt(a, x, 1, z)) != BitAt(a, x, 2, z)) != BitAt(a, x, 3, z)) != BitAt(a, x, 4, z)
  }

  predicate ThetaBit(a: seq<Sheet>, x: nat, y: nat, z: nat)
    requires IsArray(a) && x < 5 && y < 5 && z < 64
  {
    BitAt(a, x, y, z) != (Parity(a, (x - 1) % 5, z) != Parity(a, (x + 1) % 5, (z - 1) % 64))
  }

  /** The bit z that Algorithm 2 stores in lane Walk(t) at step t. */
  predicate RhoBit(a: seq<Sheet>, t: nat, z: nat)
    requires IsArray(a) && z < 64
  {
    a[Walk(t)][(z - (t + 1) * (t + 2) / 2) % 64]
  }

  predicate PiBit(a: seq<Sheet>, x: nat, y: nat, z: nat)
    requires IsArray(a) && x < 5 && y < 5 && z < 64
  {
    BitAt(a, (x + 3 * y) % 5, x, z)
  }

  predicate ChiBit(a: seq<Sheet>, x: nat, y: nat, z: nat)
    requires IsArray(a) && x < 5 && y < 5 && z < 64
  {
    BitAt(a, x, y, z) != (!BitAt(a, (x + 1) % 5, y, z) && BitAt(a, (x + 2) % 5, y, z))
  }

  /** RC[z] of Algorithm 6. */
  predicate RcBit(round: nat, z: nat) {
    || (z == 0 && RoundConstants.Rc(7 * round) == 1)
    || (z == 1 && RoundConstants.Rc(7 * round + 1) == 1)
    || (z == 3 && RoundConstants.Rc(7 * round + 2) == 1)
    || (z == 7 && RoundConstants.Rc(7 * round + 3) == 1)
    || (z == 15 && RoundConstants.Rc(7 * round + 4) == 1)
    || (z == 31 && RoundConstants.Rc(7 * round + 5) == 1)
    || (z == 63 && RoundConstants.Rc(7 * round + 6) == 1)
  }

  predicate IotaBit(a: seq<Sheet>, round: nat, x: nat, y: nat, z: nat)
    requires IsArray(a) && x < 5 && y < 5 && z < 64
  {
    BitAt(a, x, y, z) != (x == 0 && y == 0 && RcBit(round, z))
  }

  function ThetaBits(a: seq<Sheet>): (r: seq<Sheet>)
    requires IsArray(a)
    ensures IsArray(r)
    ensures forall k, z {:trigger r[k][z]} :: 0 <= k < 25 && 0 <= z < 64 ==> r[k][z] == ThetaBit(a, k % 5, k / 5, z)
  {
    seq(25, k requires 0 <= k < 25 => seq(64, z requires 0 <= z < 64 => ThetaBit(a, k % 5, k / 5, z)))
  }

  function RhoSheet(a: seq<Sheet>, t: nat): (b: Sheet)
    requires IsArray(a)
    ensures |b| == 64 && forall z :: 0 <= z < 64 ==> b[z] == RhoBit(a, t, z)
  {
    seq(64, z requires 0 <= z < 64 => RhoBit(a, t, z))
  }

  /** Algorithm 2 from step t on: a is the input array, r the output array so far. */
  function RhoBitsFrom(a: seq<Sheet>, r: seq<Sheet>, t: nat): (r': seq<Sheet>)
    requires IsArray(a) && IsArray(r) && t <= 24
    ensures IsArray(r')
    decreases 24 - t
  {
    if t == 24 then r else RhoBitsFrom(a, r[Walk(t) := RhoSheet(a, t)], t + 1)
  }

  function RhoBits(a: seq<Sheet>): (r: seq<Sheet>)
    requires IsArray(a)
    ensures IsArray(r)
  {
    RhoBitsFrom(a, a, 0)
  }

  function PiBits(a: seq<Sheet>): (r: seq<Sheet>)
    requires IsArray(a)
    ensures IsArray(r)
    ensures forall k, z {:trigger r[k][z]} :: 0 <= k < 25 && 0 <= z < 64 ==> r[k][z] == PiBit(a, k % 5, k / 5, z)
  {
    seq(25, k requires 0 <= k < 25 => seq(64, z requires 0 <= z < 64 => PiBit(a, k % 5, k / 5, z)))
  }

  function ChiBits(a: seq<Sheet>): (r: seq<Sheet>)
    requires IsArray(a)
    ensures IsArray(r)
    ensures forall k, z {:trigger r[k][z]} :: 0 <= k < 25 && 0 <= z < 64 ==> r[k][z] == ChiBit(a, k % 5, k / 5, z)
  {
    seq(25, k requires 0 <= k < 25 => seq(64, z requires 0 <= z < 64 => ChiBit(a, k % 5, k / 5, z)))
  }

  function IotaBits(a: seq<Sheet>, round: nat): (r: seq<Sheet>)
    requires IsArray(a)
    ensures IsArray(r)
    ensures forall k, z {:trigger r[k][z]} :: 0 <= k < 25 && 0 <= z < 64 ==> r[k][z] == IotaBit(a, round, k % 5, k / 5, z)
  {
    seq(25, k requires 0 <= k < 25 => seq(64, z requires 0 <= z < 64 => IotaBit(a, round, k % 5, k / 5, z)))
  }

  /** Rnd of section 3.3. */
  function RoundBits(a: seq<Sheet>, round: nat): (r: seq<Sheet>)
    requires IsArray(a)
    ensures IsArray(r)
  {
    IotaBits(ChiBits(PiBits(RhoBits(ThetaBits(a)))), round)
  }

  function PermuteBits(a: seq<Sheet>, rounds: nat): (r: seq<Sheet>)
    requires IsArray(a)
    ensures IsArray(r)
  {
    if rounds == 0 then a else RoundBits(PermuteBits(a, rounds - 1), rounds - 1)
  }

  /** The l of the standard: lanes have 2^l bits. */
  function Log2(w: nat): (l: nat)
    requires w > 0
  {
    if w == 1 then 0 else 1 + Log2(w / 2)
  }

  /** Keccak-f[1600] of section 3.4: 12 + 2 l rounds. */
  function KeccakFBits(a: seq<Sheet>): (r: seq<Sheet>)
    requires IsArray(a)
    ensures IsArray(r)
  {
    PermuteBits(a, 12 + 2 * Log2(64))
  }

  lemma LaneLog()
    ensures Log2(64) == 6
  {
    assert Log2(8) == 3;
    assert Log2(64) == 1 + Log2(32) && Log2(32) == 1 + Log2(16) && Log2(16) == 1 + Log2(8);
  }

  /** KECCAK_ROUNDS of sha3.h is the number of rounds of the standard. */
  lemma RoundsAreStandard(a: seq<Sheet>)
    requires IsArray(a)
    ensures ROUNDS == 24 == 12 + 2 * Log2(64) && KeccakFBits(a) == PermuteBits(a, ROUNDS)
  {
    hide PermuteBits, Log2;
    LaneLog();
  }

  // ----- Lanes as bits -----

  function BitsOf(x: Lane): (b: Sheet)
    ensures |b| == 64 && forall z :: 0 <= z < 64 ==> b[z] == Bit(x, z)
  {
    seq(64, z requires 0 <= z < 64 => Bit(x, z))
  }

  function ArrayOf(s: State): (a: seq<Sheet>)
    requires |s| == 25
    ensures IsArray(a) && forall k :: 0 <= k < 25 ==> a[k] == BitsOf(s[k])
  {
    seq(25, k requires 0 <= k < 25 => BitsOf(s[k]))
  }

  lemma ArrayBit(s: State, x: nat, y: nat, z: nat)
    requires |s| == 25 && x < 5 && y < 5 && z < 64
    ensures BitAt(ArrayOf(s), x, y, z) == Bit(s[At(x, y)], z)
  {
  }

  // ----- The lane forms compute the bit forms -----

  lemma ParityIsColumn(s: State, x: nat, z: nat)
    requires |s| == 25 && x < 5 && z < 64
    ensures Bit(Column(s, x), z) == Parity(ArrayOf(s), x, z)
  {
    hide Bit, Xor;
    XorBit(Xor(Xor(Xor(s[x], s[x + 5]), s[x + 10]), s[x + 15]), s[x + 20], z);
    XorBit(Xor(Xor(s[x], s[x + 5]), s[x + 10]), s[x + 15], z);
    XorBit(Xor(s[x], s[x + 5]), s[x + 10], z);
    XorBit(s[x], s[x + 5], z);
  }

  lemma ThetaIsThetaBit(s: State, x: nat, y: nat, z: nat)
    requires |s| == 25 && x < 5 && y < 5 && z < 64
    ensures BitAt(ArrayOf(Theta(s)), x, y, z) == ThetaBit(ArrayOf(s), x, y, z)
  {
    hide Bit, Xor, Rotl, Column, Theta, Parity, ArrayOf;
    var left, right := (x + 4) % 5, (x + 1) % 5;
    ThetaAt(s, x, y);
    ArrayBit(Theta(s), x, y, z);
    ArrayBit(s, x, y, z);
    XorBit(s[At(x, y)], Effect(s, x), z);
    XorBit(Column(s, left), Rotl(Column(s, right), 1), z);
    RotlBit(Column(s, right), 1, z);
    ParityIsColumn(s, left, z);
    ParityIsColumn(s, right, (z - 1) % 64);
    assert left == (x - 1) % 5;
  }

  lemma ModuloTwice(z: int, n: nat)
    ensures (z - n % 64) % 64 == (z - n) % 64
  {
  }

  lemma RotatedIsRhoSheet(s: State, t: nat)
    requires |s| == 25
    ensures BitsOf(Rotated(s, t)) == RhoSheet(ArrayOf(s), t)
  {
    hide Bit, Rotl, Walk, RhoOffset;
    forall z: nat | z < 64
      ensures BitsOf(Rotated(s, t))[z] == RhoSheet(ArrayOf(s), t)[z]
    {
      RotatedBit(s, t, z);
    }
  }

  lemma RotatedBit(s: State, t: nat, z: nat)
    requires |s| == 25 && z < 64
    ensures Bit(Rotated(s, t), z) == RhoBit(ArrayOf(s), t, z)
  {
    hide Bit, Rotl, Walk;
    RotlBit(s[Walk(t)], RhoOffset(t), z);
    ModuloTwice(z, (t + 1) * (t + 2) / 2);
  }

  lemma {:induction false} RhoIsRhoBits(s: State, r: State, t: nat)
    requires |s| == 25 && |r| == 25 && t <= 24
    ensures ArrayOf(RhoFrom(s, r, t)) == RhoBitsFrom(ArrayOf(s), ArrayOf(r), t)
    decreases 24 - t
  {
    hide Rotated, RhoSheet, BitsOf, Walk;
    if t == 24 {
    } else {
      var r' := r[Walk(t) := Rotated(s, t)];
      RotatedIsRhoSheet(s, t);
      assert ArrayOf(r') == ArrayOf(r)[Walk(t) := RhoSheet(ArrayOf(s), t)];
      RhoIsRhoBits(s, r', t + 1);
    }
  }

  lemma PiSourceAt(x: nat, y: nat)
    requires x < 5 && y < 5
    ensures PiSource(At(x, y)) == At((x + 3 * y) % 5, x)
  {
    Mod5(At(x, y), y, x);
  }

  lemma PiIsPiBit(s: State, x: nat, y: nat, z: nat)
    requires |s| == 25 && x < 5 && y < 5 && z < 64
    ensures BitAt(ArrayOf(Pi(s)), x, y, z) == PiBit(ArrayOf(s), x, y, z)
  {
    hide Bit, PiSource, Pi;
    PiSourceAt(x, y);
    PiLane(s, At(x, y));
  }

  lemma ChiIsChiBit(s: State, x: nat, y: nat, z: nat)
    requires |s| == 25 && x < 5 && y < 5 && z < 64
    ensures BitAt(ArrayOf(Chi(s)), x, y, z) == ChiBit(ArrayOf(s), x, y, z)
  {
    hide Bit, Xor, NotAnd, Chi;
    ChiAt(s, x, y);
    var b, c := s[At((x + 1) % 5, y)], s[At((x + 2) % 5, y)];
    XorBit(s[At(x, y)], NotAnd(b, c), z);
    NotAndBit(b, c, z);
  }

  lemma FlagBits(z: nat)
    requires z < 64
    ensures !Bit(0, z) && (Bit(0x1, z) <==> z == 0) && (Bit(0x2, z) <==> z == 1) && (Bit(0x8, z) <==> z == 3)
    ensures Bit(0x80, z) <==> z == 7
    ensures Bit(0x8000, z) <==> z == 15
    ensures Bit(0x8000_0000, z) <==> z == 31
    ensures Bit(0x8000_0000_0000_0000, z) <==> z == 63
  {
  }

  lemma ConstantBit(round: nat, z: nat)
    requires z < 64
    ensures Bit(RoundConstants.RoundConstant(round), z) <==> RcBit(round, z)
  {
    hide Bit, Xor, RoundConstants.Rc;
    FlagBits(z);
    var t := 7 * round;
    var f0 := RoundConstants.Flag(RoundConstants.Rc(t), 0x1);
    var f1 := RoundConstants.Flag(RoundConstants.Rc(t + 1), 0x2);
    var f2 := RoundConstants.Flag(RoundConstants.Rc(t + 2), 0x8);
    var f3 := RoundConstants.Flag(RoundConstants.Rc(t + 3), 0x80);
    var f4 := RoundConstants.Flag(RoundConstants.Rc(t + 4), 0x8000);
    var f5 := RoundConstants.Flag(RoundConstants.Rc(t + 5), 0x8000_0000);
    var f6 := RoundConstants.Flag(RoundConstants.Rc(t + 6), 0x8000_0000_0000_0000);
    XorBit(f0, f1, z);
    XorBit(Xor(f0, f1), f2, z);
    XorBit(Xor(Xor(f0, f1), f2), f3, z);
    XorBit(Xor(Xor(Xor(f0, f1), f2), f3), f4, z);
    XorBit(Xor(Xor(Xor(Xor(f0, f1), f2), f3), f4), f5, z);
    XorBit(Xor(Xor(Xor(Xor(Xor(f0, f1), f2), f3), f4), f5), f6, z);
  }

  lemma IotaIsIotaBit(s: State, round: nat, x: nat, y: nat, z: nat)
    requires |s| == 25 && x < 5 && y < 5 && z < 64
    ensures BitAt(ArrayOf(Iota(s, RoundConstants.RoundConstant(round))), x, y, z) == IotaBit(ArrayOf(s), round, x, y, z)
  {
    hide Bit, Xor, RcBit, RoundConstants.RoundConstant;
    ConstantBit(round, z);
    XorBit(s[0], RoundConstants.RoundConstant(round), z);
  }

  // ----- Whole arrays -----

  lemma SameArray(a: seq<Sheet>, b: seq<Sheet>)
    requires IsArray(a) && IsArray(b)
    requires forall x: nat, y: nat, z: nat {:trigger BitAt(a, x, y, z)} :: x < 5 && y < 5 && z < 64 ==> BitAt(a, x, y, z) == BitAt(b, x, y, z)
    ensures a == b
  {
    forall k | 0 <= k < 25
      ensures a[k] == b[k]
    {
      var x, y := k % 5, k / 5;
      assert k == At(x, y);
      forall z: nat | z < 64
        ensures a[k][z] == b[k][z]
      {
        assert BitAt(a, x, y, z) == BitAt(b, x, y, z);
      }
    }
  }

  lemma EntryAt(x: nat, y: nat)
    requires x < 5 && y < 5
    ensures At(x, y) < 25 && At(x, y) % 5 == x && At(x, y) / 5 == y
  {
    Mod5(At(x, y), y, x);
  }

  lemma ThetaIsThetaBits(s: State)
    requires |s| == 25
    ensures ArrayOf(Theta(s)) == ThetaBits(ArrayOf(s))
  {
    hide Theta, ThetaBit, ArrayOf;
    var a, b := ArrayOf(Theta(s)), ThetaBits(ArrayOf(s));
    hide ThetaBits;
    forall x: nat, y: nat, z: nat | x < 5 && y < 5 && z < 64
      ensures BitAt(a, x, y, z) == BitAt(b, x, y, z)
    {
      ThetaIsThetaBit(s, x, y, z);
      EntryAt(x, y);
    }
    SameArray(a, b);
  }

  lemma PiIsPiBits(s: State)
    requires |s| == 25
    ensures ArrayOf(Pi(s)) == PiBits(ArrayOf(s))
  {
    hide Pi, PiBit, ArrayOf;
    var a, b := ArrayOf(Pi(s)), PiBits(ArrayOf(s));
    hide PiBits;
    forall x: nat, y: nat, z: nat | x < 5 && y < 5 && z < 64
      ensures BitAt(a, x, y, z) == BitAt(b, x, y, z)
    {
      PiIsPiBit(s, x, y, z);
      EntryAt(x, y);
    }
    SameArray(a, b);
  }

  lemma ChiIsChiBits(s: State)
    requires |s| == 25
    ensures ArrayOf(Chi(s)) == ChiBits(ArrayOf(s))
  {
    hide Chi, ChiBit, ArrayOf;
    var a, b := ArrayOf(Chi(s)), ChiBits(ArrayOf(s));
    hide ChiBits;
    forall x: nat, y: nat, z: nat | x < 5 && y < 5 && z < 64
      ensures BitAt(a, x, y, z) == BitAt(b, x, y, z)
    {
      ChiIsChiBit(s, x, y, z);
      EntryAt(x, y);
    }
    SameArray(a, b);
  }

  lemma IotaIsIotaBits(s: State, round: nat)
    requires |s| == 25
    ensures ArrayOf(Iota(s, RoundConstants.RoundConstant(round))) == IotaBits(ArrayOf(s), round)
  {
    hide Iota, IotaBit, ArrayOf, RoundConstants.RoundConstant;
    var a, b := ArrayOf(Iota(s, RoundConstants.RoundConstant(round))), IotaBits(ArrayOf(s), round);
    hide IotaBits;
    forall x: nat, y: nat, z: nat | x < 5 && y < 5 && z < 64
      ensures BitAt(a, x, y, z) == BitAt(b, x, y, z)
    {
      IotaIsIotaBit(s, round, x, y, z);
      EntryAt(x, y);
    }
    SameArray(a, b);
  }

  lemma RhoPiIsRhoPiBits(s: State)
    requires |s| == 25
    ensures ArrayOf(Pi(Rho(s))) == PiBits(RhoBits(ArrayOf(s)))
  {
    hide Pi, RhoFrom, RhoBitsFrom, PiBits, ArrayOf;
    RhoIsRhoBits(s, s, 0);
    PiIsPiBits(Rho(s));
  }

  lemma RoundIsRoundBits(s: State, round: nat)
    requires |s| == 25
    ensures ArrayOf(Round(s, round)) == RoundBits(ArrayOf(s), round)
  {
    hide Theta, Rho, Pi, Chi, Iota, ThetaBits, RhoBits, PiBits, ChiBits, IotaBits, ArrayOf;
    ThetaIsThetaBits(s);
    RhoPiIsRhoPiBits(Theta(s));
    ChiIsChiBits(Pi(Rho(Theta(s))));
    IotaIsIotaBits(Chi(Pi(Rho(Theta(s)))), round);
  }

  /** The permutation on lanes is Keccak-p on bits, round by round. */
  lemma {:induction false} PermuteIsStandard(s: State, rounds: nat)
    requires |s| == 25
    ensures ArrayOf(Permute(s, rounds)) == PermuteBits(ArrayOf(s), rounds)
  {
    hide Round, RoundBits, ArrayOf;
    if rounds == 0 {
    } else {
      PermuteIsStandard(s, rounds - 1);
      RoundIsRoundBits(Permute(s, rounds - 1), rounds - 1);
    }
  }

  /** ROUNDS rounds on lanes are Keccak-f[1600] on bits. */
  lemma KeccakFIsStandard(s: State)
    requires |s| == 25
    ensures ArrayOf(Permute(s, ROUNDS)) == KeccakFBits(ArrayOf(s))
  {
    hide Permute, PermuteBits, ArrayOf, KeccakFBits, Log2;
    PermuteIsStandard(s, ROUNDS);
    RoundsAreStandard(ArrayOf(s));
  }
}
