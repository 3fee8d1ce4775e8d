/** The hash functions of section 6.1 of FIPS 202 on bit strings, and that the sponge
    on bytes computes them. */
module Sha3Standard {
  import Division
  import opened Keccak
  import opened KeccakBits
  import opened Lanes
  import opened Sponge

  // ----- Section 4 -----

  /** The state as a string, by section 3.1.3: lane after lane. */
  function StringOf(a: seq<Sheet>): (s: seq<bool>)
    requires IsArray(a)
    ensures |s| == 1600 && forall i :: 0 <= i < 1600 ==> s[i] == a[i / 64][i % 64]
  {
    seq(1600, i requires 0 <= i < 1600 => a[i / 64][i % 64])
  }

  /** The bit at (k, z) of the exclusive or of the state with p followed by zeros. */
  predicate AddedBit(a: seq<Sheet>, p: seq<bool>, k: nat, z: nat)
    requires IsArray(a) && k < 25 && z < 64
  {
    a[k][z] != (64 * k + z < |p| && p[64 * k + z])
  }

  function AddBits(a: seq<Sheet>, p: seq<bool>): (r: seq<Sheet>)
    requires IsArray(a) && |p| <= 1600
    ensures IsArray(r)
    ensures forall k, z {:trigger r[k][z]} :: 0 <= k < 25 && 0 <= z < 64 ==> r[k][z] == AddedBit(a, p, k, z)
  {
    seq(25, k requires 0 <= k < 25 => seq(64, z requires 0 <= z < 64 => AddedBit(a, p, k, z)))
  }

  /** Steps 5 and 6 of Algorithm 8. */
  function AbsorbBits(a: seq<Sheet>, p: seq<bool>, rate: nat): (r: seq<Sheet>)
    requires IsArray(a) && 0 < rate <= 1600
    ensures IsArray(r)
    decreases |p|
  {
    if |p| < rate then a else AbsorbBits(KeccakFBits(AddBits(a, p[..rate])), p[rate..], rate)
  }

  /** Steps 7 to 10 of Algorithm 8. */
  function SqueezeBits(a: seq<Sheet>, d: nat, rate: nat): (z: seq<bool>)
    requires IsArray(a) && 0 < rate <= 1600
    ensures |z| == d
    decreases d
  {
    hide StringOf, KeccakFBits;
    if d <= rate then StringOf(a)[..d]
    else StringOf(a)[..rate] + SqueezeBits(KeccakFBits(a), d - rate, rate)
  }

  function ZeroArray(): (a: seq<Sheet>)
    ensures IsArray(a)
  {
    seq(25, _ => Falses(64))
  }

  /** SHA3-d: the sponge with capacity 2 d on the message followed by 01. */
  function Sha3Bits(m: seq<bool>, d: nat): (z: seq<bool>)
    requires d < 800
    ensures |z| == d
  {
    var rate := 1600 - 2 * d;
    SqueezeBits(AbsorbBits(ZeroArray(), m + [false, true] + Pad101(rate, |m| + 2), rate), d, rate)
  }

  // ----- Short messages -----

  /** Adding a string to the zero state gives the string followed by zeros. */
  lemma AddToZero(p: seq<bool>)
    requires |p| <= 1600
    ensures StringOf(AddBits(ZeroArray(), p)) == p + Falses(1600 - |p|)
  {
    var s, t := StringOf(AddBits(ZeroArray(), p)), p + Falses(1600 - |p|);
    forall i | 0 <= i < 1600
      ensures s[i] == t[i]
    {
      assert 64 * (i / 64) + i % 64 == i;
    }
  }

  lemma ShortPad(n: nat, rate: nat)
    requires n + 4 <= rate
    ensures Pad101(rate, n + 2) == [true] + Falses(rate - n - 4) + [true]
  {
    assert (-(n + 2) - 2) == -1 * rate + (rate - n - 4);
    Division.Unique(-(n + 2) - 2, rate, -1, rate - n - 4);
  }

  /** A message that fits in one block takes one permutation. */
  lemma OneBlock(m: seq<bool>, d: nat)
    requires 0 < d && 3 * d <= 1600 && |m| + 4 <= 1600 - 2 * d
    ensures var block := m + [false, true] + [true] + Falses(1600 - 2 * d - |m| - 4) + [true];
            |block| == 1600 - 2 * d && Sha3Bits(m, d) == StringOf(KeccakFBits(AddBits(ZeroArray(), block)))[..d]
  {
    hide StringOf, KeccakFBits, AddBits, ZeroArray, Falses, Pad101;
    var rate := 1600 - 2 * d;
    ShortPad(|m|, rate);
    var z := Falses(rate - |m| - 4);
    var block := m + [false, true] + [true] + z + [true];
    assert m + [false, true] + ([true] + z + [true]) == block;
    AbsorbOne(ZeroArray(), block, rate);
  }

  lemma AbsorbOne(a: seq<Sheet>, p: seq<bool>, rate: nat)
    requires IsArray(a) && 0 < rate <= 1600 && |p| == rate
    ensures AbsorbBits(a, p, rate) == KeccakFBits(AddBits(a, p))
  {
    hide KeccakFBits, AddBits;
    assert p[..rate] == p && p[rate..] == [];
  }

  // ----- Bytes as bits -----

  lemma {:induction false} BitStringAt(m: seq<Octet>, i: nat, j: nat)
    requires i < |m| && j < 8
    ensures 8 * i + j < 8 * |m| && BitString(m)[8 * i + j] == ByteBit(m[i], j)
    decreases |m|
  {
    hide Bits, ByteBit;
    if i < |m| - 1 {
      BitStringAt(m[..|m| - 1], i, j);
    } else {
      BitsAt(m[i], j);
    }
  }

  lemma BitsAt(b: Octet, j: nat)
    requires j < 8
    ensures Bits(b)[j] == ByteBit(b, j)
  {
  }

  lemma BitStringSplit(m: seq<Octet>, n: nat)
    requires n <= |m|
    ensures BitString(m)[..8 * n] == BitString(m[..n]) && BitString(m)[8 * n..] == BitString(m[n..])
  {
    hide BitString;
    BitStringConcat(m[..n], m[n..]);
    assert m == m[..n] + m[n..];
  }

  lemma LoadBit(b: seq<Octet>, k: nat, z: nat)
    requires 8 * k + 8 <= |b| && z < 64
    ensures 64 * k + z < 8 * |b| && Bit(Load(b, k), z) == BitString(b)[64 * k + z]
  {
    hide ByteOf, ByteBit, Join, BitString;
    LoadThenStore(b[8 * k..8 * k + 8], z / 8);
    BitStringAt(b, 8 * k + z / 8, z % 8);
    assert 8 * (8 * k + z / 8) + z % 8 == 64 * k + z;
  }

  // ----- The byte forms compute the bit forms -----

  lemma AddedIsXor(s: State, block: seq<Octet>, words: nat, k: nat, z: nat)
    requires |s| == 25 && |block| == 8 * words && words <= 25 && k < 25 && z < 64
    ensures Bit(XorBlock(s, block)[k], z) == AddedBit(ArrayOf(s), BitString(block), k, z)
  {
    hide Bit, Xor, Load, BitString;
    if k < words {
      XorBit(s[k], Load(block, k), z);
      LoadBit(block, k, z);
    }
  }

  lemma XorBlockIsAddBits(s: State, block: seq<Octet>, words: nat)
    requires |s| == 25 && |block| == 8 * words && words <= 25
    ensures ArrayOf(XorBlock(s, block)) == AddBits(ArrayOf(s), BitString(block))
  {
    hide Bit, XorBlock, BitString, AddedBit;
    var a, b := ArrayOf(XorBlock(s, block)), AddBits(ArrayOf(s), BitString(block));
    forall x: nat, y: nat, z: nat | x < 5 && y < 5 && z < 64
      ensures BitAt(a, x, y, z) == BitAt(b, x, y, z)
    {
      AddedIsXor(s, block, words, At(x, y), z);
    }
    SameArray(a, b);
  }

  lemma {:induction false} AbsorbIsAbsorbBits(s: State, p: seq<Octet>, words: nat)
    requires |s| == 25 && 0 < words <= 25
    ensures ArrayOf(Absorb(s, p, 8 * words)) == AbsorbBits(ArrayOf(s), BitString(p), 64 * words)
    decreases |p|
  {
    hide Permute, KeccakFBits, XorBlock, AddBits, ArrayOf, BitString;
    var rate := 8 * words;
    if |p| < rate {
    } else {
      var t := XorBlock(s, p[..rate]);
      BitStringSplit(p, rate);
      XorBlockIsAddBits(s, p[..rate], words);
      KeccakFIsStandard(t);
      AbsorbIsAbsorbBits(Permute(t, ROUNDS), p[rate..], words);
    }
  }

  lemma StringIsBytes(s: State)
    requires |s| == 25
    ensures StringOf(ArrayOf(s)) == BitString(StateBytes(s))
  {
    hide ByteOf, ByteBit, BitString;
    var a, b := StringOf(ArrayOf(s)), BitString(StateBytes(s));
    forall i | 0 <= i < 1600
      ensures a[i] == b[i]
    {
      StringBit(s, i);
    }
  }

  lemma StringBit(s: State, i: nat)
    requires |s| == 25 && i < 1600
    ensures StringOf(ArrayOf(s))[i] == BitString(StateBytes(s))[i]
  {
    hide ByteOf, ByteBit, BitString;
    BitStringAt(StateBytes(s), i / 8, i % 8);
    assert i / 8 / 8 == i / 64 && i / 8 % 8 == i % 64 / 8 && i % 64 % 8 == i % 8;
  }

  lemma {:induction false} SqueezeIsSqueezeBits(s: State, d: nat, rate: nat)
    requires |s| == 25 && 0 < rate <= 200
    ensures BitString(Squeeze(s, d, rate)) == SqueezeBits(ArrayOf(s), 8 * d, 8 * rate)
    decreases d
  {
    hide Permute, KeccakFBits, StateBytes, StringOf, ArrayOf, BitString;
    StringIsBytes(s);
    if d <= rate {
      BitStringSplit(StateBytes(s), d);
    } else {
      BitStringSplit(StateBytes(s), rate);
      KeccakFIsStandard(s);
      SqueezeIsSqueezeBits(Permute(s, ROUNDS), d - rate, rate);
      BitStringConcat(StateBytes(s)[..rate], Squeeze(Permute(s, ROUNDS), d - rate, rate));
    }
  }

  lemma ZeroBits(z: nat)
    requires z < 64
    ensures !Bit(0, z)
  {
  }

  lemma ZeroStateIsZeroArray()
    ensures ArrayOf(ZeroState()) == ZeroArray()
  {
    hide Bit;
    forall z: nat | z < 64
      ensures !Bit(0, z)
    {
      ZeroBits(z);
    }
    assert BitsOf(0) == Falses(64);
  }

  /** The byte-level hash is SHA3-d of the standard, bit for bit, for every message of
      whole bytes and every digest length that leaves a rate of whole lanes. */
  lemma Sha3IsStandard(m: seq<Octet>, mdlen: nat)
    requires mdlen < 100 && mdlen % 4 == 0
    ensures BitString(Sha3(m, mdlen)) == Sha3Bits(BitString(m), 8 * mdlen)
  {
    hide Absorb, AbsorbBits, Squeeze, SqueezeBits, Pad, Pad101, BitString, ArrayOf, ZeroState, ZeroArray;
    var rate := Rate(mdlen);
    var words := rate / 8;
    assert rate == 8 * words;
    PadIsStandard(m, rate);
    assert BitString(m) + Suffix(|m|, rate) == BitString(m) + [false, true] + Pad101(8 * rate, 8 * |m| + 2);
    ZeroStateIsZeroArray();
    AbsorbIsAbsorbBits(ZeroState(), Pad(m, rate), words);
    SqueezeIsSqueezeBits(Absorb(ZeroState(), Pad(m, rate), rate), mdlen, rate);
  }
}
