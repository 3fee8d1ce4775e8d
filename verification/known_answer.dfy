/** Two rounds of the permutation on the zero state, worked out. */
module KnownAnswer {
  import opened Keccak
  import opened Lanes
  import opened RhoWalk
  import opened RoundConstants

  function Zeros(): (s: State)
    ensures |s| == 25 && forall k :: 0 <= k < 25 ==> s[k] == 0
  {
    seq(25, _ => 0)
  }

  /** The state after the first round: one bit, that of the first round constant. */
  function OneBit(): (s: State)
    ensures |s| == 25 && s[0] == 1 && forall k :: 1 <= k < 25 ==> s[k] == 0
  {
    [1] + seq(24, _ => 0)
  }

  /** The second round after rho and pi. */
  function AfterRhoPi(k: nat): Lane
    requires k < 25
  {
    match k
    case 0 => 0x1 case 1 => 0x100000000000 case 2 => 0x0 case 3 => 0x0 case 4 => 0x8000
    case 5 => 0x0 case 6 => 0x200000 case 7 => 0x0 case 8 => 0x200000000000 case 9 => 0x0
    case 10 => 0x2 case 11 => 0x0 case 12 => 0x0 case 13 => 0x200 case 14 => 0x0
    case 15 => 0x10000000 case 16 => 0x0 case 17 => 0x400 case 18 => 0x0 case 19 => 0x0
    case 20 => 0x0 case 21 => 0x0 case 22 => 0x10000000000 case 23 => 0x0 case _ => 0x4
  }

  /** The state after the second round. */
  function AfterTwoRounds(k: nat): Lane
    requires k < 25
  {
    match k
    case 0 => 0x8083 case 1 => 0x100000000000 case 2 => 0x8000 case 3 => 0x1 case 4 => 0x100000008000
    case 5 => 0x0 case 6 => 0x200000200000 case 7 => 0x0 case 8 => 0x200000000000 case 9 => 0x200000
    case 10 => 0x2 case 11 => 0x200 case 12 => 0x0 case 13 => 0x202 case 14 => 0x0
    case 15 => 0x10000400 case 16 => 0x0 case 17 => 0x400 case 18 => 0x10000000 case 19 => 0x0
    case 20 => 0x10000000000 case 21 => 0x0 case 22 => 0x10000000004 case 23 => 0x0 case _ => 0x4
  }

  // ----- The second round -----

  function AfterTheta(k: nat): Lane {
    if k == 0 || k % 5 == 1 then 1 else if k % 5 == 4 then 2 else 0
  }

  lemma ColumnsOfOneBit(x: nat)
    requires x < 5
    ensures Column(OneBit(), x) == if x == 0 then 1 else 0
  {
    hide OneBit;
  }

  lemma RotatedConstants()
    ensures Rotl(1, 1) == 2 && Rotl(0, 1) == 0
  {
  }

  lemma EffectOfOneBit(x: nat)
    requires x < 5
    ensures Effect(OneBit(), x) == if x == 1 then 1 else if x == 4 then 2 else 0
  {
    hide OneBit, Column, Rotl;
    RotatedConstants();
    ColumnsOfOneBit((x + 4) % 5);
    ColumnsOfOneBit((x + 1) % 5);
  }

  lemma ThetaOfOneBit(k: nat)
    requires k < 25
    ensures Theta(OneBit())[k] == AfterTheta(k)
  {
    hide OneBit, Effect;
    EffectOfOneBit(k % 5);
  }

  lemma ZeroTurned(n: nat)
    requires n < 64
    ensures Rotl(0, n) == 0
  {
  }

  lemma RotationAt(t: nat)
    requires t < 24
    ensures Rotl(AfterTheta(if t == 0 then 1 else Piln(t - 1)), Rotc(t)) == AfterRhoPi(Piln(t))
  {
    ZeroTurned(Rotc(t));
    match t {
      case 0 => case 1 => case 2 => case 3 => case 4 => case 5 => case 6 => case 7 => case 8 =>
      case 9 => case 10 => case 11 => case 12 => case 13 => case 14 => case 15 => case 16 => case 17 =>
      case 18 => case 19 => case 20 => case 21 => case 22 => case _ =>
    }
  }

  lemma RhoPiOfOneBit(k: nat)
    requires k < 25
    ensures Pi(Rho(Theta(OneBit())))[k] == AfterRhoPi(k)
  {
    hide OneBit, Theta, Pi, Rho, Rotl, AfterRhoPi, AfterTheta, Walk, RhoOffset, Piln, Rotc;
    var s := Theta(OneBit());
    if k == 0 {
      RhoPiLane(s, 0);
      ThetaOfOneBit(0);
      OriginStays();
    } else {
      var t := WalkReaches(k);
      RhoPiLane(s, t);
      RotcIsRhoOffset(t);
      WalkFrom(t);
      ThetaOfOneBit(Walk(t));
      RotationAt(t);
    }
  }

  lemma OriginStays()
    ensures AfterTheta(0) == AfterRhoPi(0)
  {
  }

  lemma WalkFrom(t: nat)
    requires t < 24
    ensures Walk(t) == if t == 0 then 1 else Piln(t - 1)
  {
    if t > 0 {
      PilnIsWalk(t - 1);
    }
  }

  lemma FirstRowOfChi()
    ensures Xor(Mixed(0x1, 0x100000000000, 0x0), Rndc(1)) == 0x8083
    ensures Mixed(0x100000000000, 0x0, 0x0) == 0x100000000000
    ensures Mixed(0x0, 0x0, 0x8000) == 0x8000
    ensures Mixed(0x0, 0x8000, 0x1) == 0x1
    ensures Mixed(0x8000, 0x1, 0x100000000000) == 0x100000008000
  {
  }

  lemma SecondRowOfChi()
    ensures Mixed(0x0, 0x200000, 0x0) == 0x0
    ensures Mixed(0x200000, 0x0, 0x200000000000) == 0x200000200000
    ensures Mixed(0x0, 0x200000000000, 0x0) == 0x0
    ensures Mixed(0x200000000000, 0x0, 0x0) == 0x200000000000
    ensures Mixed(0x0, 0x0, 0x200000) == 0x200000
  {
  }

  lemma ThirdRowOfChi()
    ensures Mixed(0x2, 0x0, 0x0) == 0x2
    ensures Mixed(0x0, 0x0, 0x200) == 0x200
    ensures Mixed(0x0, 0x200, 0x0) == 0x0
    ensures Mixed(0x200, 0x0, 0x2) == 0x202
    ensures Mixed(0x0, 0x2, 0x0) == 0x0
  {
  }

  lemma FourthRowOfChi()
    ensures Mixed(0x10000000, 0x0, 0x400) == 0x10000400
    ensures Mixed(0x0, 0x400, 0x0) == 0x0
    ensures Mixed(0x400, 0x0, 0x0) == 0x400
    ensures Mixed(0x0, 0x0, 0x10000000) == 0x10000000
    ensures Mixed(0x0, 0x10000000, 0x0) == 0x0
  {
  }

  lemma FifthRowOfChi()
    ensures Mixed(0x0, 0x0, 0x10000000000) == 0x10000000000
    ensures Mixed(0x0, 0x10000000000, 0x0) == 0x0
    ensures Mixed(0x10000000000, 0x0, 0x4) == 0x10000000004
    ensures Mixed(0x0, 0x4, 0x0) == 0x0
    ensures Mixed(0x4, 0x0, 0x0) == 0x4
  {
  }

  lemma FirstRowEntries()
    ensures AfterRhoPi(0) == 0x1 && AfterRhoPi(1) == 0x100000000000 && AfterRhoPi(2) == 0x0 && AfterRhoPi(3) == 0x0 && AfterRhoPi(4) == 0x8000
    ensures AfterTwoRounds(0) == 0x8083 && AfterTwoRounds(1) == 0x100000000000 && AfterTwoRounds(2) == 0x8000 && AfterTwoRounds(3) == 0x1 && AfterTwoRounds(4) == 0x100000008000
  {
  }

  lemma SecondRowEntries()
    ensures AfterRhoPi(5) == 0x0 && AfterRhoPi(6) == 0x200000 && AfterRhoPi(7) == 0x0 && AfterRhoPi(8) == 0x200000000000 && AfterRhoPi(9) == 0x0
    ensures AfterTwoRounds(5) == 0x0 && AfterTwoRounds(6) == 0x200000200000 && AfterTwoRounds(7) == 0x0 && AfterTwoRounds(8) == 0x200000000000 && AfterTwoRounds(9) == 0x200000
  {
  }

  lemma ThirdRowEntries()
    ensures AfterRhoPi(10) == 0x2 && AfterRhoPi(11) == 0x0 && AfterRhoPi(12) == 0x0 && AfterRhoPi(13) == 0x200 && AfterRhoPi(14) == 0x0
    ensures AfterTwoRounds(10) == 0x2 && AfterTwoRounds(11) == 0x200 && AfterTwoRounds(12) == 0x0 && AfterTwoRounds(13) == 0x202 && AfterTwoRounds(14) == 0x0
  {
  }

  lemma FourthRowEntries()
    ensures AfterRhoPi(15) == 0x10000000 && AfterRhoPi(16) == 0x0 && AfterRhoPi(17) == 0x400 && AfterRhoPi(18) == 0x0 && AfterRhoPi(19) == 0x0
    ensures AfterTwoRounds(15) == 0x10000400 && AfterTwoRounds(16) == 0x0 && AfterTwoRounds(17) == 0x400 && AfterTwoRounds(18) == 0x10000000 && AfterTwoRounds(19) == 0x0
  {
  }

  lemma FifthRowEntries()
    ensures AfterRhoPi(20) == 0x0 && AfterRhoPi(21) == 0x0 && AfterRhoPi(22) == 0x10000000000 && AfterRhoPi(23) == 0x0 && AfterRhoPi(24) == 0x4
    ensures AfterTwoRounds(20) == 0x10000000000 && AfterTwoRounds(21) == 0x0 && AfterTwoRounds(22) == 0x10000000004 && AfterTwoRounds(23) == 0x0 && AfterTwoRounds(24) == 0x4
  {
  }

  lemma FirstRow(x: nat)
    requires x < 5
    ensures var c := Mixed(AfterRhoPi(At(x, 0)), AfterRhoPi(At((x + 1) % 5, 0)), AfterRhoPi(At((x + 2) % 5, 0)));
            AfterTwoRounds(At(x, 0)) == if x == 0 then Xor(c, Rndc(1)) else c
  {
    hide Mixed, Xor, Rndc, AfterRhoPi, AfterTwoRounds;
    FirstRowEntries();
    FirstRowOfChi();
    match x {
      case 0 => case 1 => case 2 => case 3 => case _ =>
    }
  }

  lemma SecondRow(x: nat)
    requires x < 5
    ensures var c := Mixed(AfterRhoPi(At(x, 1)), AfterRhoPi(At((x + 1) % 5, 1)), AfterRhoPi(At((x + 2) % 5, 1)));
            AfterTwoRounds(At(x, 1)) == c
  {
    hide Mixed, Xor, Rndc, AfterRhoPi, AfterTwoRounds;
    SecondRowEntries();
    SecondRowOfChi();
    match x {
      case 0 => case 1 => case 2 => case 3 => case _ =>
    }
  }

  lemma ThirdRow(x: nat)
    requires x < 5
    ensures var c := Mixed(AfterRhoPi(At(x, 2)), AfterRhoPi(At((x + 1) % 5, 2)), AfterRhoPi(At((x + 2) % 5, 2)));
            AfterTwoRounds(At(x, 2)) == c
  {
    hide Mixed, Xor, Rndc, AfterRhoPi, AfterTwoRounds;
    ThirdRowEntries();
    ThirdRowOfChi();
    match x {
      case 0 => case 1 => case 2 => case 3 => case _ =>
    }
  }

  lemma FourthRow(x: nat)
    requires x < 5
    ensures var c := Mixed(AfterRhoPi(At(x, 3)), AfterRhoPi(At((x + 1) % 5, 3)), AfterRhoPi(At((x + 2) % 5, 3)));
            AfterTwoRounds(At(x, 3)) == c
  {
    hide Mixed, Xor, Rndc, AfterRhoPi, AfterTwoRounds;
    FourthRowEntries();
    FourthRowOfChi();
    match x {
      case 0 => case 1 => case 2 => case 3 => case _ =>
    }
  }

  lemma FifthRow(x: nat)
    requires x < 5
    ensures var c := Mixed(AfterRhoPi(At(x, 4)), AfterRhoPi(At((x + 1) % 5, 4)), AfterRhoPi(At((x + 2) % 5, 4)));
            AfterTwoRounds(At(x, 4)) == c
  {
    hide Mixed, Xor, Rndc, AfterRhoPi, AfterTwoRounds;
    FifthRowEntries();
    FifthRowOfChi();
    match x {
      case 0 => case 1 => case 2 => case 3 => case _ =>
    }
  }

  lemma ChiAndIota(k: nat)
    requires k < 25
    ensures var x, y := k % 5, k / 5;
            var c := Mixed(AfterRhoPi(k), AfterRhoPi(At((x + 1) % 5, y)), AfterRhoPi(At((x + 2) % 5, y)));
            AfterTwoRounds(k) == if k == 0 then Xor(c, Rndc(1)) else c
  {
    hide Mixed, Xor, Rndc, AfterRhoPi, AfterTwoRounds;
    LaneIsAt(k);
    match k / 5 {
      case 0 => FirstRow(k % 5);
      case 1 => SecondRow(k % 5);
      case 2 => ThirdRow(k % 5);
      case 3 => FourthRow(k % 5);
      case _ => FifthRow(k % 5);
    }
  }

  lemma SecondRound(k: nat)
    requires k < 25
    ensures Round(OneBit(), 1)[k] == AfterTwoRounds(k)
  {
    hide OneBit, Theta, Pi, Rho, AfterRhoPi, AfterTwoRounds, Mixed, Xor, RoundConstant, Rndc;
    var s := Pi(Rho(Theta(OneBit())));
    var x, y := k % 5, k / 5;
    RhoPiOfOneBit(k);
    RhoPiOfOneBit(At((x + 1) % 5, y));
    RhoPiOfOneBit(At((x + 2) % 5, y));
    ChiAndIota(k);
    RoundConstantsMatch(1);
    LaneIsAt(k);
    ChiAt(s, x, y);
  }

  lemma LaneIsAt(k: nat)
    requires k < 25
    ensures At(k % 5, k / 5) == k
  {
  }

  // ----- The first round -----

  lemma ZeroThroughTheta(k: nat)
    requires k < 25
    ensures Theta(Zeros())[k] == 0
  {
    hide Zeros, Rotl;
    RotatedConstants();
  }

  lemma ChiOfNothing()
    ensures Mixed(0, 0, 0) == 0 && Xor(0, Rndc(0)) == 1
  {
  }

  lemma FirstRoundLane(k: nat)
    requires k < 25
    ensures Round(Zeros(), 0)[k] == OneBit()[k]
  {
    hide Theta, Pi, Rho, Zeros, OneBit, RoundConstant, Rndc, Mixed, Xor;
    var s := Pi(Rho(Theta(Zeros())));
    var x, y := k % 5, k / 5;
    ChiOfNothing();
    RoundConstantsMatch(0);
    ZeroThroughRhoPi(k);
    ZeroThroughRhoPi(At((x + 1) % 5, y));
    ZeroThroughRhoPi(At((x + 2) % 5, y));
    LaneIsAt(k);
    ChiAt(s, x, y);
  }

  lemma FirstRound()
    ensures Round(Zeros(), 0) == OneBit()
  {
    hide Round, Zeros, OneBit;
    forall k | 0 <= k < 25
      ensures Round(Zeros(), 0)[k] == OneBit()[k]
    {
      FirstRoundLane(k);
    }
  }

  lemma ZeroThroughRhoPi(k: nat)
    requires k < 25
    ensures Pi(Rho(Theta(Zeros())))[k] == 0
  {
    hide Zeros, Theta, Pi, Rho, Rotl, Walk, RhoOffset;
    var s := Theta(Zeros());
    if k == 0 {
      RhoPiLane(s, 0);
      ZeroThroughTheta(0);
    } else {
      var t := WalkReaches(k);
      RhoPiLane(s, t);
      ZeroThroughTheta(Walk(t));
      ZeroTurned(RhoOffset(t));
    }
  }

  lemma TwoRounds(k: nat)
    requires k < 25
    ensures Permute(Zeros(), 2)[k] == AfterTwoRounds(k)
  {
    hide Round, Zeros, OneBit, AfterTwoRounds;
    FirstRound();
    SecondRound(k);
    assert Permute(Zeros(), 1) == Round(Permute(Zeros(), 0), 0);
  }
}
