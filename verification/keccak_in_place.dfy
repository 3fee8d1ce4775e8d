/** keccakf of sha3.c, which works in place on an array of lanes. */
module KeccakInPlace {
  import opened Keccak
  import opened KeccakBits
  import opened Lanes
  import opened RhoWalk
  import opened RoundConstants

  // ----- Rho and pi -----

  /** The body of the Rho Pi loop: lane j gets the rotated temporary and is itself taken out. */
  method MoveLane(st: array<Lane>, bc: array<Lane>, t: Lane, j: nat, n: nat) returns (taken: Lane)
    requires st.Length == 25 && bc.Length == 5 && st != bc && j < 25 && n < 64
    modifies st, bc
    ensures st[..] == old(st[..])[j := Rotl(t, n)] && taken == old(st[j])
  {
    bc[0] := st[j];
    st[j] := Rotl(t, n);
    taken := bc[0];
  }

  /** The loop: one temporary is carried around the walk. */
  method CarryAround(st: array<Lane>, bc: array<Lane>, ghost s: State, ghost r: State)
    requires st.Length == 25 && bc.Length == 5 && st != bc && st[..] == s && r == Pi(Rho(s))
    modifies st, bc
    ensures Walked(s, r, st[..], 24)
  {
    var t := st[1];
    assert Walk(0) == 1;
    WalkedStart(s, r);
    hide Rotl, Rho, Pi, Walk, RhoOffset, Walked;
    for i := 0 to 24
      invariant t == s[Walk(i)] && Walked(s, r, st[..], i)
    {
      RhoPiLane(s, i);
      WalkedStep(s, r, st[..], i);
      var j, n := Entries(i);
      t := MoveLane(st, bc, t, j, n);
    }
  }

  method RhoPiInPlace(st: array<Lane>, bc: array<Lane>)
    requires st.Length == 25 && bc.Length == 5 && st != bc
    modifies st, bc
    ensures st[..] == Pi(Rho(old(st[..])))
    ensures ArrayOf(st[..]) == PiBits(RhoBits(ArrayOf(old(st[..]))))
  {
    hide Walked, Rho, Pi, ArrayOf, PiBits, RhoBits;
    ghost var s: State := st[..];
    ghost var r := Pi(Rho(s));
    CarryAround(st, bc, s, r);
    RhoPiLane(s, 0);
    WalkedAll(s, r, st[..]);
    RhoPiIsRhoPiBits(s);
  }

  /** The first n lanes are those of r, the others still those of s. */
  ghost predicate Prefix<T>(s: seq<T>, r: seq<T>, cur: seq<T>, n: nat) {
    && |s| == |r| == |cur| == 25
    && forall k :: 0 <= k < 25 ==> cur[k] == if k < n then r[k] else s[k]
  }

  lemma PrefixStep<T>(s: seq<T>, r: seq<T>, cur: seq<T>, n: nat)
    requires Prefix(s, r, cur, n) && n < 25
    ensures cur[n] == s[n] && Prefix(s, r, cur[n := r[n]], n + 1)
  {
  }

  lemma PrefixAll<T>(s: seq<T>, r: seq<T>, cur: seq<T>)
    requires Prefix(s, r, cur, 25)
    ensures cur == r
  {
  }

  method ChiInPlace(st: array<Lane>, bc: array<Lane>)
    requires st.Length == 25 && bc.Length == 5 && st != bc
    modifies st, bc
    ensures st[..] == Chi(old(st[..])) && ArrayOf(st[..]) == ChiBits(ArrayOf(old(st[..])))
  {
    ghost var s, r := st[..], Chi(st[..]);
    var j := 0;
    ghost var row := 0;
    while j < 25
      invariant j == 5 * row && row <= 5 && Prefix(s, r, st[..], j)
    {
      ChiRow(st, bc, j, row, s, r);
      j, row := j + 5, row + 1;
    }
    PrefixAll(s, r, st[..]);
    ChiIsChiBits(s);
  }

  /** The body of the outer Chi loop: one row, through a copy. */
  method ChiRow(st: array<Lane>, bc: array<Lane>, j: nat, ghost row: nat, ghost s: State, ghost r: State)
    requires st.Length == 25 && bc.Length == 5 && st != bc && row < 5 && j == 5 * row
    requires Prefix(s, r, st[..], j) && r == Chi(s)
    modifies st, bc
    ensures Prefix(s, r, st[..], j + 5)
  {
    CopyRow(st, bc, j);
    for i := 0 to 5
      invariant Prefix(s, r, st[..], j + i)
      invariant bc[..] == s[j..j + 5]
    {
      PrefixStep(s, r, st[..], j + i);
      MixLane(st, bc, j, i, row, s);
    }
  }

  method CopyRow(st: array<Lane>, bc: array<Lane>, j: nat)
    requires st.Length == 25 && bc.Length == 5 && st != bc && j <= 20
    modifies bc
    ensures bc[..] == st[j..j + 5]
  {
    for i := 0 to 5
      invariant bc[..i] == st[j..j + i]
    {
      bc[i] := st[j + i];
    }
  }

  method MixLane(st: array<Lane>, bc: array<Lane>, j: nat, i: nat, ghost row: nat, ghost s: State)
    requires st.Length == 25 && bc.Length == 5 && st != bc && row < 5 && j == 5 * row && i < 5
    requires |s| == 25 && st[j + i] == s[j + i] && bc[..] == s[j..j + 5]
    modifies st
    ensures st[..] == old(st[..])[j + i := Chi(s)[j + i]]
  {
    var a, b, c := st[j + i], bc[(i + 1) % 5], bc[(i + 2) % 5];
    MixedIsChi(s, j, i, row, a, b, c);
    st[j + i] := Xor(a, NotAnd(b, c));
  }

  lemma MixedIsChi(s: State, j: nat, i: nat, row: nat, a: Lane, b: Lane, c: Lane)
    requires |s| == 25 && row < 5 && i < 5 && j == 5 * row
    requires a == s[j + i] && b == s[j..j + 5][(i + 1) % 5] && c == s[j..j + 5][(i + 2) % 5]
    ensures Chi(s)[j + i] == Xor(a, NotAnd(b, c))
  {
    ChiAt(s, i, row);
    assert At(i, row) == j + i;
    assert b == s[At((i + 1) % 5, row)] && c == s[At((i + 2) % 5, row)];
  }

  // ----- Theta, in place -----

  method ColumnParities(st: array<Lane>, bc: array<Lane>)
    requires st.Length == 25 && bc.Length == 5 && st != bc
    modifies bc
    ensures forall x :: 0 <= x < 5 ==> bc[x] == Column(st[..], x)
  {
    for i := 0 to 5
      invariant forall x :: 0 <= x < i ==> bc[x] == Column(st[..], x)
    {
      bc[i] := Column(st[..], i);
    }
  }

  /** The lanes of the first i columns, and of column i in the first rows, are those of r. */
  ghost predicate Columns<T>(s: seq<T>, r: seq<T>, cur: seq<T>, i: nat, rows: nat) {
    && |s| == |r| == |cur| == 25
    && forall x: nat, y: nat {:trigger At(x, y)} :: x < 5 && y < 5 ==>
         cur[At(x, y)] == if x < i || (x == i && y < rows) then r[At(x, y)] else s[At(x, y)]
  }

  lemma ColumnsStep<T>(s: seq<T>, r: seq<T>, cur: seq<T>, i: nat, rows: nat)
    requires Columns(s, r, cur, i, rows) && i < 5 && rows < 5
    ensures cur[At(i, rows)] == s[At(i, rows)]
    ensures Columns(s, r, cur[At(i, rows) := r[At(i, rows)]], i, rows + 1)
  {
  }

  lemma ColumnsNext<T>(s: seq<T>, r: seq<T>, cur: seq<T>, i: nat)
    requires Columns(s, r, cur, i, 5)
    ensures Columns(s, r, cur, i + 1, 0)
  {
  }

  lemma ColumnsAll<T>(s: seq<T>, r: seq<T>, cur: seq<T>)
    requires Columns(s, r, cur, 5, 0)
    ensures cur == r
  {
    forall k | 0 <= k < 25
      ensures cur[k] == r[k]
    {
      assert k == At(k % 5, k / 5);
    }
  }

  lemma ThetaColumn(s: State, x: nat, t: Lane)
    requires |s| == 25 && x < 5 && t == Effect(s, x)
    ensures forall y: nat {:trigger At(x, y)} :: y < 5 ==> Theta(s)[At(x, y)] == Xor(s[At(x, y)], t)
  {
    forall y: nat | y < 5
      ensures Theta(s)[At(x, y)] == Xor(s[At(x, y)], t)
    {
      ThetaAt(s, x, y);
    }
  }

  method ThetaInPlace(st: array<Lane>, bc: array<Lane>)
    requires st.Length == 25 && bc.Length == 5 && st != bc
    modifies st, bc
    ensures st[..] == Theta(old(st[..])) && ArrayOf(st[..]) == ThetaBits(ArrayOf(old(st[..])))
  {
    hide Xor, Rotl, Column, Theta;
    ghost var s, r := st[..], Theta(st[..]);
    ColumnParities(st, bc);
    for i := 0 to 5
      invariant forall x :: 0 <= x < 5 ==> bc[x] == Column(s, x)
      invariant Columns(s, r, st[..], i, 0)
    {
      var t := Xor(bc[(i + 4) % 5], Rotl(bc[(i + 1) % 5], 1));
      ThetaColumn(s, i, t);
      AddToColumn(st, i, t, s, r);
      ColumnsNext(s, r, st[..], i);
    }
    ColumnsAll(s, r, st[..]);
    ThetaIsThetaBits(s);
  }

  /** The inner loop of the second half of Theta. */
  method AddToColumn(st: array<Lane>, i: nat, t: Lane, ghost s: State, ghost r: State)
    requires st.Length == 25 && i < 5 && Columns(s, r, st[..], i, 0)
    requires forall y: nat {:trigger At(i, y)} :: y < 5 ==> r[At(i, y)] == Xor(s[At(i, y)], t)
    modifies st
    ensures Columns(s, r, st[..], i, 5)
  {
    var j := 0;
    ghost var row := 0;
    while j < 25
      invariant j == 5 * row && row <= 5 && Columns(s, r, st[..], i, row)
    {
      ColumnsStep(s, r, st[..], i, row);
      assert At(i, row) == j + i;
      XorLane(st, j + i, t, r[j + i]);
      j, row := j + 5, row + 1;
    }
  }

  method XorLane(st: array<Lane>, k: nat, t: Lane, ghost v: Lane)
    requires k < st.Length && v == Xor(st[k], t)
    modifies st
    ensures st[..] == old(st[..])[k := v]
  {
    st[k] := Xor(st[k], t);
  }

  // ----- keccakf -----

  /** keccakf_rndc[round], which is the round constant of the standard. */
  method TableConstant(round: nat) returns (c: Lane)
    requires round < 24
    ensures c == RoundConstant(round)
  {
    RoundConstantsMatch(round);
    c := Rndc(round);
  }

  method IotaInPlace(st: array<Lane>, c: Lane)
    requires st.Length == 25
    modifies st
    ensures st[..] == Iota(old(st[..]), c)
  {
    ghost var v := Xor(st[0], c);
    XorLane(st, 0, c, v);
    hide Xor;
  }

  /** The body of the loop of keccakf. */
  method RoundInPlace(st: array<Lane>, bc: array<Lane>, round: nat)
    requires st.Length == 25 && bc.Length == 5 && st != bc && round < 24
    modifies st, bc
    ensures st[..] == Round(old(st[..]), round)
    ensures ArrayOf(st[..]) == RoundBits(ArrayOf(old(st[..])), round)
  {
    ghost var s := st[..];
    hide Theta, Rho, Pi, Chi, Iota, RoundConstant;
    ThetaInPlace(st, bc);
    RhoPiInPlace(st, bc);
    ChiInPlace(st, bc);
    var c := TableConstant(round);
    IotaInPlace(st, c);
    RoundIsRoundBits(s, round);
  }

  method KeccakF(st: array<Lane>, rounds: nat)
    requires st.Length == 25 && rounds <= 24
    modifies st
    ensures st[..] == Permute(old(st[..]), rounds)
    ensures ArrayOf(st[..]) == PermuteBits(ArrayOf(old(st[..])), rounds)
  {
    hide Round, ArrayOf, RoundBits, PermuteBits;
    ghost var s := st[..];
    var bc := new Lane[5];
    for round := 0 to rounds
      invariant st[..] == Permute(s, round)
    {
      RoundInPlace(st, bc, round);
    }
    PermuteIsStandard(s, rounds);
  }
}
