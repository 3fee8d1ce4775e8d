/** The order in which sha3.c and Algorithm 2 of FIPS 202 visit the lanes: lane
    (x, y) is numbered x + 5 * y. */
module RhoWalk {

  /** From lane (x, y) to lane (y, (2 x + 3 y) mod 5). */
  function Next(k: nat): (n: nat)
    requires k < 25
    ensures n < 25
  {
    k / 5 + 5 * ((2 * (k % 5) + 3 * (k / 5)) % 5)
  }

  /** The lane that Algorithm 2 treats at its t-th step. */
  function Walk(t: nat): (k: nat)
    ensures k < 25
  {
    if t == 0 then 1 else Next(Walk(t - 1))
  }

  function RhoOffset(t: nat): (n: nat)
    ensures n < 64
  {
    (t + 1) * (t + 2) / 2 % 64
  }

  /** The lane that Pi moves to lane k. */
  function PiSource(k: nat): (j: nat)
    requires k < 25
    ensures j < 25
  {
    (k % 5 + 3 * (k / 5)) % 5 + 5 * (k % 5)
  }

  /** keccakf_rotc. */
  function Rotc(t: nat): (n: nat)
    requires t < 24
    ensures n < 64
  {
    match t
    case 0 => 1 case 1 => 3 case 2 => 6 case 3 => 10 case 4 => 15 case 5 => 21 case 6 => 28 case 7 => 36
    case 8 => 45 case 9 => 55 case 10 => 2 case 11 => 14 case 12 => 27 case 13 => 41 case 14 => 56 case 15 => 8
    case 16 => 25 case 17 => 43 case 18 => 62 case 19 => 18 case 20 => 39 case 21 => 61 case 22 => 20 case _ => 44
  }

  /** keccakf_piln. */
  function Piln(t: nat): (n: nat)
    requires t < 24
    ensures 0 < n < 25 && (n == 1 <==> t == 23)
  {
    match t
    case 0 => 10 case 1 => 7 case 2 => 11 case 3 => 17 case 4 => 18 case 5 => 3 case 6 => 5 case 7 => 16
    case 8 => 8 case 9 => 21 case 10 => 24 case 11 => 4 case 12 => 15 case 13 => 23 case 14 => 19 case 15 => 13
    case 16 => 12 case 17 => 2 case 18 => 20 case 19 => 14 case 20 => 22 case 21 => 9 case 22 => 6 case _ => 1
  }

  // ----- The walk of the program visits each non-origin lane once -----

  lemma Mod5(a: int, q: int, r: int)
    requires a == 5 * q + r && 0 <= r < 5
    ensures a / 5 == q && a % 5 == r
  {
  }

  /** Pi takes its lanes one step back along the walk of Rho. */
  lemma PiStepsBack(k: nat)
    requires k < 25
    ensures PiSource(Next(k)) == k
  {
    var x, y := k % 5, k / 5;
    var q, z := (2 * x + 3 * y) / 5, (2 * x + 3 * y) % 5;
    assert Next(k) == y + 5 * z;
    Mod5(Next(k), z, y);
    Mod5(y + 3 * z, x + 2 * y - 3 * q, x);
  }

  lemma NextFirstLanes()
    ensures Next(10) == 7
    ensures Next(7) == 11
    ensures Next(11) == 17
    ensures Next(17) == 18
    ensures Next(18) == 3
    ensures Next(3) == 5
    ensures Next(5) == 16
    ensures Next(16) == 8
  {
  }

  lemma NextMiddleLanes()
    ensures Next(8) == 21
    ensures Next(21) == 24
    ensures Next(24) == 4
    ensures Next(4) == 15
    ensures Next(15) == 23
    ensures Next(23) == 19
    ensures Next(19) == 13
    ensures Next(13) == 12
  {
  }

  lemma NextLastLanes()
    ensures Next(12) == 2
    ensures Next(2) == 20
    ensures Next(20) == 14
    ensures Next(14) == 22
    ensures Next(22) == 9
    ensures Next(9) == 6
    ensures Next(6) == 1
  {
  }

  lemma PilnSteps(t: nat)
    requires t < 23
    ensures Piln(t + 1) == Next(Piln(t))
  {
    hide Next;
    NextFirstLanes();
    NextMiddleLanes();
    NextLastLanes();
    match t {
      case 0 => case 1 => case 2 => case 3 => case 4 => case 5 => case 6 => case 7 =>
      case 8 => case 9 => case 10 => case 11 => case 12 => case 13 => case 14 => case 15 =>
      case 16 => case 17 => case 18 => case 19 => case 20 => case 21 => case _ =>
    }
  }

  /** keccakf_piln lists the lanes of the walk from its second one on, and ends where the walk begins. */
  lemma {:induction false} PilnIsWalk(t: nat)
    requires t < 24
    ensures Piln(t) == Walk(t + 1)
    ensures Piln(t) == 1 <==> t == 23
  {
    hide Next;
    if t == 0 {
      WalkStarts();
    } else {
      hide Piln;
      PilnSteps(t - 1);
      PilnIsWalk(t - 1);
    }
  }

  lemma WalkStarts()
    ensures Walk(0) == 1 && Walk(1) == Piln(0)
  {
  }

  lemma RotcIsRhoOffset(t: nat)
    requires t < 24
    ensures Rotc(t) == RhoOffset(t)
  {
    match t {
      case 0 => case 1 => case 2 => case 3 => case 4 => case 5 => case 6 => case 7 =>
      case 8 => case 9 => case 10 => case 11 => case 12 => case 13 => case 14 => case 15 =>
      case 16 => case 17 => case 18 => case 19 => case 20 => case 21 => case 22 => case _ =>
    }
  }

  lemma NextAvoidsOrigin(k: nat)
    requires 0 < k < 25
    ensures Next(k) != 0
  {
    PiStepsBack(k);
    assert PiSource(0) == 0;
  }

  lemma {:induction false} WalkAvoidsOrigin(t: nat)
    ensures Walk(t) != 0
  {
    if t == 0 {
    } else {
      WalkAvoidsOrigin(t - 1);
      NextAvoidsOrigin(Walk(t - 1));
    }
  }

  lemma {:induction false} WalkInjective(i: nat, j: nat)
    requires i < j < i + 24
    ensures Walk(i) != Walk(j)
  {
    if i == 0 {
      PilnIsWalk(j - 1);
    } else {
      WalkInjective(i - 1, j - 1);
      PiStepsBack(Walk(i - 1));
      PiStepsBack(Walk(j - 1));
    }
  }

  /** The step of the program that stores lane t. */
  function StepTo(t: nat): (n: nat)
    requires t < 25
    ensures n <= 24 && (t != 0 ==> n < 24 && Piln(n) == t)
  {
    match t
    case 0 => 24 case 1 => 23 case 2 => 17 case 3 => 5 case 4 => 11 case 5 => 6 case 6 => 22 case 7 => 1
    case 8 => 8 case 9 => 21 case 10 => 0 case 11 => 2 case 12 => 16 case 13 => 15 case 14 => 19 case 15 => 12
    case 16 => 7 case 17 => 3 case 18 => 4 case 19 => 14 case 20 => 18 case 21 => 9 case 22 => 20 case 23 => 13
    case _ => 10
  }

  lemma WalkReaches(k: nat) returns (t: nat)
    requires 0 < k < 25
    ensures t < 24 && Piln(t) == k == Walk(t + 1)
  {
    t := StepTo(k);
    hide Piln, Walk, StepTo;
    PilnIsWalk(t);
  }

  /** The two table entries that the i-th step of the program reads. */
  method Entries(i: nat) returns (j: nat, n: nat)
    requires i < 24
    ensures j == Walk(i + 1) && n == RhoOffset(i)
  {
    PilnIsWalk(i);
    RotcIsRhoOffset(i);
    j, n := Piln(i), Rotc(i);
  }

  /** After i steps of the walk from s, the lanes visited are those of r. */
  ghost predicate Walked<T>(s: seq<T>, r: seq<T>, cur: seq<T>, i: nat) {
    && |s| == |r| == |cur| == 25
    && cur[0] == s[0]
    && (forall k: nat {:trigger Walk(k)} :: 1 <= k <= i ==> cur[Walk(k)] == r[Walk(k)])
    && (forall k: nat {:trigger Walk(k)} :: i < k <= 24 ==> cur[Walk(k)] == s[Walk(k)])
  }

  lemma WalkedStart<T>(s: seq<T>, r: seq<T>)
    requires |s| == |r| == 25
    ensures Walked(s, r, s, 0)
  {
  }

  lemma WalkApart(i: nat, k: nat)
    requires 1 <= i <= 24 && 1 <= k <= 24 && k != i
    ensures Walk(k) != Walk(i)
  {
    if k < i {
      WalkInjective(k, i);
    } else {
      WalkInjective(i, k);
    }
  }

  lemma WalkedStep<T>(s: seq<T>, r: seq<T>, cur: seq<T>, i: nat)
    requires i < 24 && Walked(s, r, cur, i)
    ensures cur[Walk(i + 1)] == s[Walk(i + 1)]
    ensures Walked(s, r, cur[Walk(i + 1) := r[Walk(i + 1)]], i + 1)
  {
    hide Walk;
    WalkAvoidsOrigin(i + 1);
    forall k: nat | 1 <= k <= 24 && k != i + 1
      ensures Walk(k) != Walk(i + 1)
    {
      WalkApart(i + 1, k);
    }
  }

  lemma WalkedAll<T>(s: seq<T>, r: seq<T>, cur: seq<T>)
    requires Walked(s, r, cur, 24) && r[0] == s[0]
    ensures cur == r
  {
    forall k | 0 <= k < 25
      ensures cur[k] == r[k]
    {
      if k != 0 {
        var t := WalkReaches(k);
      }
    }
  }
}
