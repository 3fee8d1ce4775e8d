/** The permutation of section 3 of FIPS 202 on lanes.  Lane (x, y) of the state is
    entry x + 5 * y. */
module Keccak {
  import opened Lanes
  import opened RhoWalk
  import opened RoundConstants

  type State = seq<Lane>  // 25 of them

  const ROUNDS: nat := 24  // KECCAK_ROUNDS

  /** The number of lane (x, y). */
  function At(x: nat, y: nat): nat {
    x + 5 * y
  }

  // ----- The step mappings of sections 3.2.1 to 3.2.5 of FIPS 202 -----

  function Column(s: State, x: nat): Lane
    requires |s| == 25 && x < 5
  {
    Xor(Xor(Xor(Xor(s[x], s[x + 5]), s[x + 10]), s[x + 15]), s[x + 20])
  }

  function Effect(s: State, x: nat): Lane
    requires |s| == 25 && x < 5
  {
    Xor(Column(s, (x + 4) % 5), Rotl(Column(s, (x + 1) % 5), 1))
  }

  function Theta(s: State): (r: State)
    requires |s| == 25
    ensures |r| == 25
  {
    seq(25, k requires 0 <= k < 25 => Xor(s[k], Effect(s, k % 5)))
  }

  /** What Algorithm 2 computes at step t. */
  function Rotated(s: State, t: nat): Lane
    requires |s| == 25
  {
    Rotl(s[Walk(t)], RhoOffset(t))
  }

  /** Algorithm 2 from step t on: s is the input array, r the output array so far. */
  function RhoFrom(s: State, r: State, t: nat): (r': State)
    requires |s| == |r| == 25 && t <= 24
    ensures |r'| == 25
    decreases 24 - t
  {
    if t == 24 then r else RhoFrom(s, r[Walk(t) := Rotated(s, t)], t + 1)
  }

  function Rho(s: State): (r: State)
    requires |s| == 25
    ensures |r| == 25
  {
    RhoFrom(s, s, 0)
  }

  function Pi(s: State): (r: State)
    requires |s| == 25
    ensures |r| == 25
  {
    seq(25, k requires 0 <= k < 25 => s[PiSource(k)])
  }

  function ChiLane(s: State, x: nat, y: nat): Lane
    requires |s| == 25 && x < 5 && y < 5
  {
    Mixed(s[At(x, y)], s[At((x + 1) % 5, y)], s[At((x + 2) % 5, y)])
  }

  function Mixed(a: Lane, b: Lane, c: Lane): Lane {
    Xor(a, NotAnd(b, c))
  }

  function Chi(s: State): (r: State)
    requires |s| == 25
    ensures |r| == 25
  {
    seq(25, k requires 0 <= k < 25 => ChiLane(s, k % 5, k / 5))
  }

  function Iota(s: State, constant: Lane): (r: State)
    requires |s| == 25
    ensures |r| == 25
  {
    s[0 := Xor(s[0], constant)]
  }

  function Round(s: State, round: nat): (r: State)
    requires |s| == 25
    ensures |r| == 25
  {
    Iota(Chi(Pi(Rho(Theta(s)))), RoundConstant(round))
  }

  function Permute(s: State, rounds: nat): (r: State)
    requires |s| == 25
    ensures |r| == 25
  {
    if rounds == 0 then s else Round(Permute(s, rounds - 1), rounds - 1)
  }

  // ----- Rho then Pi, lane by lane -----

  lemma {:induction false} RhoFromLane(s: State, r: State, t: nat, i: nat)
    requires |s| == |r| == 25 && t <= 24 && i < 24
    requires i < t ==> r[Walk(i)] == Rotated(s, i)
    ensures RhoFrom(s, r, t)[Walk(i)] == Rotated(s, i)
    decreases 24 - t
  {
    hide Walk, Rotated, Rotl;
    if t == 24 {
    } else {
      assert i < t ==> Walk(i) != Walk(t) by {
        if i < t { WalkInjective(i, t); }
      }
      RhoFromLane(s, r[Walk(t) := Rotated(s, t)], t + 1, i);
    }
  }

  lemma {:induction false} RhoFromOrigin(s: State, r: State, t: nat)
    requires |s| == |r| == 25 && t <= 24
    ensures RhoFrom(s, r, t)[0] == r[0]
    decreases 24 - t
  {
    if t == 24 {
    } else {
      WalkAvoidsOrigin(t);
      RhoFromOrigin(s, r[Walk(t) := Rotated(s, t)], t + 1);
    }
  }

  lemma PiLane(s: State, k: nat)
    requires |s| == 25 && k < 25
    ensures Pi(s)[k] == s[PiSource(k)]
  {
  }

  lemma RhoPiLane(s: State, t: nat)
    requires |s| == 25 && t < 24
    ensures Pi(Rho(s))[Walk(t + 1)] == Rotated(s, t)
    ensures Pi(Rho(s))[0] == s[0]
  {
    RhoFromLane(s, s, 0, t);
    RhoFromOrigin(s, s, 0);
    PiStepsBack(Walk(t));
    PiLane(Rho(s), Walk(t + 1));
    PiLane(Rho(s), 0);
    assert PiSource(0) == 0;
  }

  // ----- Theta and chi, lane by lane -----

  lemma ThetaAt(s: State, x: nat, y: nat)
    requires |s| == 25 && x < 5 && y < 5
    ensures Theta(s)[At(x, y)] == Xor(s[At(x, y)], Effect(s, x))
  {
    Mod5(At(x, y), y, x);
  }

  lemma ChiAt(s: State, x: nat, y: nat)
    requires |s| == 25 && x < 5 && y < 5
    ensures Chi(s)[At(x, y)] == ChiLane(s, x, y)
  {
    Mod5(At(x, y), y, x);
  }
}
