/** The round constants: Algorithms 5 and 6 of FIPS 202 against the table of sha3.c. */
module RoundConstants {
  import opened Lanes

  /** One step of Algorithm 5: R[8] is the bit shifted out. */
  function Shift(r: bv8): bv8 {
    if r & 0x80 != 0 then (r << 1) ^ 0x71 else r << 1
  }

  /** The register of Algorithm 5 after t steps; bit i of the result is R[i]. */
  function Register(t: nat): bv8 {
    if t == 0 then 1 else Shift(Register(t - 1))
  }

  /** rc(t). */
  function Rc(t: nat): bv8 {
    Register(t % 255) & 1
  }

  /** The lane with one bit set, or none. */
  function Flag(b: bv8, bit: Lane): Lane {
    if b == 1 then bit else 0
  }

  /** Seven output bits at positions 2^j - 1 of a lane. */
  function Combine(b0: bv8, b1: bv8, b2: bv8, b3: bv8, b4: bv8, b5: bv8, b6: bv8): Lane {
    Xor(Xor(Xor(Xor(Xor(Xor(Flag(b0, 0x1), Flag(b1, 0x2)), Flag(b2, 0x8)), Flag(b3, 0x80)), Flag(b4, 0x8000)),
            Flag(b5, 0x8000_0000)), Flag(b6, 0x8000_0000_0000_0000))
  }

  /** Algorithm 6: the round constant. */
  function RoundConstant(round: nat): Lane {
    var t := 7 * round;
    Combine(Rc(t), Rc(t + 1), Rc(t + 2), Rc(t + 3), Rc(t + 4), Rc(t + 5), Rc(t + 6))
  }

  /** keccakf_rndc. */
  function Rndc(round: nat): Lane
    requires round < 24
  {
    match round
    case 0 => 0x0000000000000001 case 1 => 0x0000000000008082
    case 2 => 0x800000000000808a case 3 => 0x8000000080008000
    case 4 => 0x000000000000808b case 5 => 0x0000000080000001
    case 6 => 0x8000000080008081 case 7 => 0x8000000000008009
    case 8 => 0x000000000000008a case 9 => 0x0000000000000088
    case 10 => 0x0000000080008009 case 11 => 0x000000008000000a
    case 12 => 0x000000008000808b case 13 => 0x800000000000008b
    case 14 => 0x8000000000008089 case 15 => 0x8000000000008003
    case 16 => 0x8000000000008002 case 17 => 0x8000000000000080
    case 18 => 0x000000000000800a case 19 => 0x800000008000000a
    case 20 => 0x8000000080008081 case 21 => 0x8000000000008080
    case 22 => 0x0000000080000001 case _ => 0x8000000080008008
  }

  /** The register at the start of each round. */
  function RoundRegister(round: nat): bv8
    requires round < 24
  {
    match round
    case 0 => 0x01 case 1 => 0x80
    case 2 => 0xd8 case 3 => 0x1a
    case 4 => 0xdf case 5 => 0x09
    case 6 => 0x35 case 7 => 0x4f
    case 8 => 0xca case 9 => 0x70
    case 10 => 0x41 case 11 => 0xec
    case 12 => 0xd5 case 13 => 0xcd
    case 14 => 0x63 case 15 => 0xab
    case 16 => 0xaa case 17 => 0x2a
    case 18 => 0xf2 case 19 => 0xe8
    case 20 => 0x37 case 21 => 0x3e
    case 22 => 0x0b case _ => 0x44
  }

  function Seven(r: bv8): bv8 {
    Shift(Shift(Shift(Shift(Shift(Shift(Shift(r)))))))
  }

  /** The round constant that the register r puts out in seven steps. */
  function PutOut(r: bv8): Lane {
    var r1 := Shift(r);
    var r2 := Shift(r1);
    var r3 := Shift(r2);
    var r4 := Shift(r3);
    var r5 := Shift(r4);
    var r6 := Shift(r5);
    Combine(r & 1, r1 & 1, r2 & 1, r3 & 1, r4 & 1, r5 & 1, r6 & 1)
  }

  lemma RegistersFollow(round: nat)
    requires round < 23
    ensures Seven(RoundRegister(round)) == RoundRegister(round + 1)
  {
    match round {
      case 0 => assert Seven(0x01) == 0x80; case 1 => assert Seven(0x80) == 0xd8;
      case 2 => assert Seven(0xd8) == 0x1a; case 3 => assert Seven(0x1a) == 0xdf;
      case 4 => assert Seven(0xdf) == 0x09; case 5 => assert Seven(0x09) == 0x35;
      case 6 => assert Seven(0x35) == 0x4f; case 7 => assert Seven(0x4f) == 0xca;
      case 8 => assert Seven(0xca) == 0x70; case 9 => assert Seven(0x70) == 0x41;
      case 10 => assert Seven(0x41) == 0xec; case 11 => assert Seven(0xec) == 0xd5;
      case 12 => assert Seven(0xd5) == 0xcd; case 13 => assert Seven(0xcd) == 0x63;
      case 14 => assert Seven(0x63) == 0xab; case 15 => assert Seven(0xab) == 0xaa;
      case 16 => assert Seven(0xaa) == 0x2a; case 17 => assert Seven(0x2a) == 0xf2;
      case 18 => assert Seven(0xf2) == 0xe8; case 19 => assert Seven(0xe8) == 0x37;
      case 20 => assert Seven(0x37) == 0x3e; case 21 => assert Seven(0x3e) == 0x0b;
      case _ => assert Seven(0x0b) == 0x44;
    }
  }

  lemma FirstPutOuts()
    ensures PutOut(0x01) == 0x0000000000000001
    ensures PutOut(0x80) == 0x0000000000008082
    ensures PutOut(0xd8) == 0x800000000000808a
    ensures PutOut(0x1a) == 0x8000000080008000
    ensures PutOut(0xdf) == 0x000000000000808b
    ensures PutOut(0x09) == 0x0000000080000001
    ensures PutOut(0x35) == 0x8000000080008081
    ensures PutOut(0x4f) == 0x8000000000008009
    ensures PutOut(0xca) == 0x000000000000008a
    ensures PutOut(0x70) == 0x0000000000000088
    ensures PutOut(0x41) == 0x0000000080008009
    ensures PutOut(0xec) == 0x000000008000000a
  {
  }

  lemma SecondPutOuts()
    ensures PutOut(0xd5) == 0x000000008000808b
    ensures PutOut(0xcd) == 0x800000000000008b
    ensures PutOut(0x63) == 0x8000000000008089
    ensures PutOut(0xab) == 0x8000000000008003
    ensures PutOut(0xaa) == 0x8000000000008002
    ensures PutOut(0x2a) == 0x8000000000000080
    ensures PutOut(0xf2) == 0x000000000000800a
    ensures PutOut(0xe8) == 0x800000008000000a
    ensures PutOut(0x37) == 0x8000000080008081
    ensures PutOut(0x3e) == 0x8000000000008080
    ensures PutOut(0x0b) == 0x0000000080000001
    ensures PutOut(0x44) == 0x8000000080008008
  {
  }

  lemma RegistersPutOut(round: nat)
    requires round < 24
    ensures PutOut(RoundRegister(round)) == Rndc(round)
  {
    hide PutOut;
    FirstPutOuts();
    SecondPutOuts();
    match round {
      case 0 => case 1 => case 2 => case 3 => case 4 => case 5 => case 6 => case 7 =>
      case 8 => case 9 => case 10 => case 11 => case 12 => case 13 => case 14 => case 15 =>
      case 16 => case 17 => case 18 => case 19 => case 20 => case 21 => case 22 => case _ =>
    }
  }

  lemma RcSmall(t: nat)
    requires t < 255
    ensures Rc(t) == Register(t) & 1
  {
  }

  lemma RegisterStep(t: nat)
    ensures Register(t + 1) == Shift(Register(t))
  {
  }

  lemma SevenSteps(t: nat)
    ensures Register(t + 7) == Seven(Register(t))
  {
    hide Register, Shift;
    RegisterStep(t);
    RegisterStep(t + 1);
    RegisterStep(t + 2);
    RegisterStep(t + 3);
    RegisterStep(t + 4);
    RegisterStep(t + 5);
    RegisterStep(t + 6);
  }

  lemma TableStart()
    ensures Register(0) == RoundRegister(0)
  {
  }

  lemma {:induction false} RegisterInTable(round: nat)
    requires round < 24
    ensures Register(7 * round) == RoundRegister(round)
  {
    hide Seven, RoundRegister, Register;
    if round == 0 {
      TableStart();
    } else {
      RegisterInTable(round - 1);
      RegistersFollow(round - 1);
      SevenSteps(7 * (round - 1));
    }
  }

  lemma RoundConstantIsPutOut(round: nat)
    requires round < 24
    ensures RoundConstant(round) == PutOut(Register(7 * round))
  {
    hide Register, Shift, Rc, Combine;
    var t := 7 * round;
    RcSmall(t);
    RcSmall(t + 1);
    RcSmall(t + 2);
    RcSmall(t + 3);
    RcSmall(t + 4);
    RcSmall(t + 5);
    RcSmall(t + 6);
    RegisterStep(t);
    RegisterStep(t + 1);
    RegisterStep(t + 2);
    RegisterStep(t + 3);
    RegisterStep(t + 4);
    RegisterStep(t + 5);
  }

  /** keccakf_rndc is what Algorithms 5 and 6 compute. */
  lemma RoundConstantsMatch(round: nat)
    requires round < 24
    ensures Rndc(round) == RoundConstant(round)
  {
    RegisterInTable(round);
    RegistersPutOut(round);
    RoundConstantIsPutOut(round);
  }
}
