/** The sponge of sections 4 and 5.1 of FIPS 202 and the hash functions of section
    6.1, on messages that are whole bytes. */
module Sponge {
  import opened Keccak
  import opened Lanes
  import Division

  // ----- Bytes and lanes -----

  /** Eight bytes as a lane, least significant first. */
  function Join(b: seq<Octet>): Lane
    requires |b| == 8
  {
    (b[0] as Lane) | (b[1] as Lane << 8) | (b[2] as Lane << 16) | (b[3] as Lane << 24)
    | (b[4] as Lane << 32) | (b[5] as Lane << 40) | (b[6] as Lane << 48) | (b[7] as Lane << 56)
  }

  /** The byte string of a state. */
  function StateBytes(s: State): (b: seq<Octet>)
    requires |s| == 25
    ensures |b| == 200
  {
    seq(200, k requires 0 <= k < 200 => ByteOf(s[k / 8], k % 8))
  }

  function Load(b: seq<Octet>, i: nat): Lane
    requires 8 * i + 8 <= |b|
  {
    Join(b[8 * i..8 * i + 8])
  }

  /** Storing a lane gives back the bytes it was loaded from. */
  lemma LoadThenStore(b: seq<Octet>, j: nat)
    requires |b| == 8 && j < 8
    ensures ByteOf(Join(b), j) == b[j]
  {
    match j {
      case 0 => case 1 => case 2 => case 3 => case 4 => case 5 => case 6 => case _ =>
    }
  }

  // ----- The standard -----

  /** Adds a block to the state. */
  function XorBlock(s: State, block: seq<Octet>): (r: State)
    requires |s| == 25 && |block| <= 200
    ensures |r| == 25
  {
    seq(25, k requires 0 <= k < 25 => if 8 * k + 8 <= |block| then Xor(s[k], Load(block, k)) else s[k])
  }

  /** Absorbs a padded message, block by block. */
  function Absorb(s: State, p: seq<Octet>, rate: nat): (r: State)
    requires |s| == 25 && 0 < rate <= 200
    ensures |r| == 25
    decreases |p|
  {
    if |p| < rate then s else Absorb(Permute(XorBlock(s, p[..rate]), ROUNDS), p[rate..], rate)
  }

  /** Squeezes d bytes. */
  function Squeeze(s: State, d: nat, rate: nat): (z: seq<Octet>)
    requires |s| == 25 && 0 < rate <= 200
    ensures |z| == d
    decreases d
  {
    hide StateBytes, Permute;
    if d <= rate then StateBytes(s)[..d]
    else StateBytes(s)[..rate] + Squeeze(Permute(s, ROUNDS), d - rate, rate)
  }

  function Zeros(n: nat): (z: seq<Octet>)
    ensures |z| == n && forall i :: 0 <= i < n ==> z[i] == 0
  {
    seq(n, _ => 0)
  }

  /** The bytes left in the block that the end of an n-byte message falls in. */
  function Free(n: nat, rate: nat): (q: nat)
    requires rate > 0
    ensures 1 <= q <= rate
  {
    rate - n % rate
  }

  /** What Pad appends to a message that leaves q bytes free. */
  function Tail(q: nat): (t: seq<Octet>)
    requires q > 0
    ensures |t| == q
  {
    if q == 1 then [0x86] else [0x06] + Zeros(q - 2) + [0x80]
  }

  /** The message, the bits 01, and the padding, in bytes. */
  function Pad(m: seq<Octet>, rate: nat): (p: seq<Octet>)
    requires rate > 0
    ensures |p| > |m|
  {
    m + Tail(Free(|m|, rate))
  }

  /** A padded message is a whole number of blocks. */
  lemma PadLength(m: seq<Octet>, rate: nat)
    requires rate > 0
    ensures |Pad(m, rate)| % rate == 0
  {
    var n := |m|;
    assert n + (rate - n % rate) == (n / rate + 1) * rate;
    Division.Unique(n + (rate - n % rate), rate, n / rate + 1, 0);
  }

  lemma FreeAfterBlock(n: nat, rate: nat)
    requires 0 < rate <= n
    ensures Free(n, rate) == Free(n - rate, rate)
  {
    Division.Shift(n - rate, rate);
  }

  /** Padding leaves the full blocks of the message alone. */
  lemma PadBlock(m: seq<Octet>, rate: nat)
    requires 0 < rate <= |m|
    ensures Pad(m, rate)[..rate] == m[..rate] && Pad(m, rate)[rate..] == Pad(m[rate..], rate)
  {
    hide Free, Tail;
    FreeAfterBlock(|m|, rate);
    assert m == m[..rate] + m[rate..];
  }

  function Rate(mdlen: nat): nat
    requires mdlen < 100
  {
    200 - 2 * mdlen
  }

  function ZeroState(): (s: State)
    ensures |s| == 25
  {
    seq(25, _ => 0)
  }

  /** SHA3-d for a digest of mdlen bytes. */
  function Sha3(m: seq<Octet>, mdlen: nat): (z: seq<Octet>)
    requires mdlen < 100
    ensures |z| == mdlen
  {
    Squeeze(Absorb(ZeroState(), Pad(m, Rate(mdlen)), Rate(mdlen)), mdlen, Rate(mdlen))
  }

  // ----- The padding in bits -----

  /** The bits of a byte, as in appendix B.1: least significant first. */
  function Bits(b: Octet): (s: seq<bool>)
    ensures |s| == 8 && forall j :: 0 <= j < 8 ==> s[j] == ByteBit(b, j)
  {
    [ByteBit(b, 0), ByteBit(b, 1), ByteBit(b, 2), ByteBit(b, 3), ByteBit(b, 4), ByteBit(b, 5), ByteBit(b, 6), ByteBit(b, 7)]
  }

  function BitString(m: seq<Octet>): (s: seq<bool>)
    ensures |s| == 8 * |m|
  {
    if m == [] then [] else BitString(m[..|m| - 1]) + Bits(m[|m| - 1])
  }

  function Falses(n: nat): (z: seq<bool>)
    ensures |z| == n && forall i :: 0 <= i < n ==> !z[i]
  {
    seq(n, _ => false)
  }

  /** pad10*1 of section 5.1. */
  function Pad101(x: nat, m: nat): (p: seq<bool>)
    requires x > 0
  {
    [true] + Falses((-(m as int) - 2) % x) + [true]
  }

  lemma BitStringSnoc(m: seq<Octet>, b: Octet)
    ensures BitString(m + [b]) == BitString(m) + Bits(b)
  {
    hide Bits;
    assert (m + [b])[..|m|] == m;
  }

  lemma BitStringNone()
    ensures BitString([]) == []
  {
  }

  lemma {:induction false} BitStringConcat(m: seq<Octet>, n: seq<Octet>)
    ensures BitString(m + n) == BitString(m) + BitString(n)
    decreases |n|
  {
    hide Bits, BitString;
    if n == [] {
      BitStringNone();
      assert m + n == m;
    } else {
      var k, b := n[..|n| - 1], n[|n| - 1];
      assert n == k + [b] && m + n == (m + k) + [b];
      BitStringConcat(m, k);
      BitStringSnoc(k, b);
      BitStringSnoc(m + k, b);
    }
  }

  lemma {:induction false} BitStringZeros(n: nat)
    ensures BitString(Zeros(n)) == Falses(8 * n)
  {
    if n == 0 {
    } else {
      BitStringZeros(n - 1);
      assert Zeros(n)[..n - 1] == Zeros(n - 1);
      assert Bits(0) == Falses(8);
    }
  }

  lemma PadBitsLength(n: nat, rate: nat)
    requires rate > 0
    ensures (-(8 * n + 2) - 2) % (8 * rate) == 8 * (rate - n % rate) - 4
  {
    var k, q := n / rate, rate - n % rate;
    assert n == k * rate + rate - q;
    assert 8 * n == (k + 1) * (8 * rate) - 8 * q;
    Division.Unique(-(8 * n + 2) - 2, 8 * rate, -(k + 1), 8 * q - 4);
  }

  lemma PadTailBits(q: nat)
    requires q > 0
    ensures Bits(0x86) == [false, true, true] + Falses(4) + [true]
    ensures q > 1 ==> Bits(0x06) + Falses(8 * (q - 2)) + Bits(0x80) == [false, true, true] + Falses(8 * q - 4) + [true]
  {
    assert Bits(0x06) == [false, true, true] + Falses(5);
    assert Bits(0x80) == Falses(7) + [true];
  }

  lemma TailBits(q: nat)
    requires q > 0
    ensures BitString(Tail(q)) == [false, true, true] + Falses(8 * q - 4) + [true]
  {
    hide Bits;
    PadTailBits(q);
    OneByte(0x86);
    OneByte(0x06);
    OneByte(0x80);
    if q > 1 {
      BitStringConcat([0x06] + Zeros(q - 2), [0x80]);
      BitStringConcat([0x06], Zeros(q - 2));
      BitStringZeros(q - 2);
    }
  }

  /** What the standard appends to a message of n bytes: the suffix 01 of section 6.1 and pad10*1. */
  function Suffix(n: nat, rate: nat): seq<bool>
    requires rate > 0
  {
    [false, true] + Pad101(8 * rate, 8 * n + 2)
  }

  lemma TailIsSuffix(n: nat, rate: nat)
    requires rate > 0
    ensures BitString(Tail(Free(n, rate))) == Suffix(n, rate)
  {
    hide Bits, BitString, Tail;
    TailBits(Free(n, rate));
    PadBitsLength(n, rate);
  }

  /** The bytes 0x06 ... 0x80, or 0x86, are the padding of the standard, for every message length. */
  lemma PadIsStandard(m: seq<Octet>, rate: nat)
    requires rate > 0
    ensures BitString(Pad(m, rate)) == BitString(m) + Suffix(|m|, rate)
  {
    hide Bits, BitString, Tail, Suffix, Free;
    TailIsSuffix(|m|, rate);
    AppendBits(m, Tail(Free(|m|, rate)), Suffix(|m|, rate));
  }

  lemma AppendBits(m: seq<Octet>, t: seq<Octet>, bits: seq<bool>)
    requires BitString(t) == bits
    ensures BitString(m + t) == BitString(m) + bits
  {
    BitStringConcat(m, t);
  }

  lemma OneByte(b: Octet)
    ensures BitString([b]) == Bits(b)
  {
    assert [b][..0] == [];
  }
}
