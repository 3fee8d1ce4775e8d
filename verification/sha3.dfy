/** sha3 of sha3.c: the streaming computation of the sponge. */
module Sha3Program {
  import opened Keccak
  import opened KeccakBits
  import opened KeccakInPlace
  import opened Lanes
  import opened Limits
  import opened Memory
  import Sha3Standard
  import opened Sponge
  import Division

  lemma XorBlockLanes(s: State, block: seq<Octet>, words: nat)
    requires |s| == 25 && |block| == 8 * words && words <= 25
    ensures forall k :: 0 <= k < words ==> XorBlock(s, block)[k] == Xor(s[k], Load(block, k))
    ensures forall k :: words <= k < 25 ==> XorBlock(s, block)[k] == s[k]
  {
  }

  /** The two loops that add rsizw words of memory to the state. */
  method AddWords(st: array<Lane>, block: seq<Octet>, rsizw: nat)
    requires st.Length == 25 && |block| == 8 * rsizw && rsizw <= 25
    modifies st
    ensures st[..] == XorBlock(old(st[..]), block)
  {
    hide Xor, Load, XorBlock;
    ghost var s, r := st[..], XorBlock(st[..], block);
    XorBlockLanes(s, block, rsizw);
    for i := 0 to rsizw
      invariant Prefix(s, r, st[..], i)
    {
      PrefixStep(s, r, st[..], i);
      AddWord(st, i, Load(block, i));
    }
    assert st[..] == r;
  }

  method AddWord(st: array<Lane>, i: nat, w: Lane)
    requires i < st.Length
    modifies st
    ensures st[..] == old(st[..])[i := Xor(old(st[i]), w)]
  {
    ghost var v := Xor(st[i], w);
    XorLane(st, i, w, v);
    hide Xor;
  }

  /** Lines 93-97: the rest of the message, padded to a block. */
  method LastBlock(rest: seq<Octet>, rsiz: nat) returns (temp: array<Octet>)
    requires |rest| < rsiz <= 144
    ensures fresh(temp) && temp.Length == 144
    ensures temp[..rsiz] == Pad(rest, rsiz)
  {
    temp := new Octet[144];
    MemCpy(temp, 0, rest);
    var inlen := |rest|;
    temp[inlen] := 0x06;
    inlen := inlen + 1;
    MemSet(temp, inlen, 0, rsiz - inlen);
    temp[rsiz - 1] := temp[rsiz - 1] | 0x80;
    LastBlockIsPad(rest, rsiz, temp[..rsiz]);
  }

  lemma LastBlockIsPad(rest: seq<Octet>, rsiz: nat, t: seq<Octet>)
    requires |rest| < rsiz && |t| == rsiz
    requires forall k :: 0 <= k < |rest| ==> t[k] == rest[k]
    requires forall k :: |rest| < k < rsiz - 1 ==> t[k] == 0
    requires if |rest| == rsiz - 1 then t[rsiz - 1] == 0x86 else t[|rest|] == 0x06 && t[rsiz - 1] == 0x80
    ensures t == Pad(rest, rsiz)
  {
    hide Tail, Free;
    FreeInOneBlock(|rest|, rsiz);
    TailBytes(t[|rest|..]);
    assert t[..|rest|] == rest;
  }

  lemma FreeInOneBlock(n: nat, rate: nat)
    requires n < rate
    ensures Free(n, rate) == rate - n
  {
    Division.Unique(n, rate, 0, n);
  }

  lemma TailBytes(t: seq<Octet>)
    requires |t| > 0
    requires if |t| == 1 then t[0] == 0x86 else t[0] == 0x06 && t[|t| - 1] == 0x80
    requires forall k :: 0 < k < |t| - 1 ==> t[k] == 0
    ensures t == Tail(|t|)
  {
  }

  // ----- The digest -----

  /** memcpy of the first mdlen bytes of the state, which is stored least significant byte first. */
  method CopyOut(st: array<Lane>, md: array<Octet>, mdlen: nat)
    requires st.Length == 25 && mdlen <= 200 && mdlen <= md.Length
    modifies md
    ensures md[..mdlen] == StateBytes(st[..])[..mdlen] && md[mdlen..] == old(md[mdlen..])
  {
    MemCpy(md, 0, StateBytes(st[..])[..mdlen]);
  }

  method Sha3InPlace(input: seq<Octet>, md: array<Octet>, mdlen: nat)
    requires |input| <= INT_MAX
    requires 28 <= mdlen <= 64 && mdlen % 4 == 0 && mdlen <= md.Length
    modifies md
    ensures md[..mdlen] == Sha3(input, mdlen) && md[mdlen..] == old(md[mdlen..])
    ensures BitString(md[..mdlen]) == Sha3Standard.Sha3Bits(BitString(input), 8 * mdlen)
  {
    hide Pad, Absorb, StateBytes, Permute, XorBlock, ArrayOf, PermuteBits, BitString, Sha3Standard.Sha3Bits;
    var rsiz := 200 - 2 * mdlen;
    var rsizw := rsiz / 8;
    var st := new Lane[25](_ => 0);
    assert st[..] == ZeroState();
    var pos, inlen := 0, |input|;
    ghost var goal := Absorb(ZeroState(), Pad(input, rsiz), rsiz);
    assert input[pos..] == input;
    while inlen >= rsiz
      invariant 0 <= pos && 0 <= inlen && pos + inlen == |input|
      invariant md[..] == old(md[..])
      invariant Absorb(st[..], Pad(input[pos..], rsiz), rsiz) == goal
    {
      AbsorbBlock(st[..], input[pos..], rsiz);
      var block := input[pos..pos + rsiz];
      assert block == input[pos..][..rsiz] && input[pos..][rsiz..] == input[pos + rsiz..];
      AddWords(st, block, rsizw);
      KeccakF(st, ROUNDS);
      inlen := inlen - rsiz;
      pos := pos + rsiz;
    }
    AbsorbLast(st[..], input[pos..], rsiz);
    var temp := LastBlock(input[pos..], rsiz);
    AddWords(st, temp[..rsiz], rsizw);
    KeccakF(st, ROUNDS);
    assert st[..] == goal;
    CopyOut(st, md, mdlen);
    Sha3Standard.Sha3IsStandard(input, mdlen);
  }

  lemma AbsorbBlock(s: State, m: seq<Octet>, rate: nat)
    requires |s| == 25 && 0 < rate <= 200 && rate <= |m|
    ensures Absorb(s, Pad(m, rate), rate) == Absorb(Permute(XorBlock(s, m[..rate]), ROUNDS), Pad(m[rate..], rate), rate)
  {
    hide Permute, XorBlock, Pad;
    PadBlock(m, rate);
  }

  lemma AbsorbLast(s: State, m: seq<Octet>, rate: nat)
    requires |s| == 25 && |m| < rate <= 200
    ensures |Pad(m, rate)| == rate
    ensures Absorb(s, Pad(m, rate), rate) == Permute(XorBlock(s, Pad(m, rate)), ROUNDS)
  {
    hide Permute, XorBlock;
    FreeInOneBlock(|m|, rate);
    var p := Pad(m, rate);
    assert |p| == rate && p[..rate] == p;
  }
}
