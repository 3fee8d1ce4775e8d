/** Lanes of 64 bits, and bytes as lists of bits, least significant bit first as in
    appendix B.1 of FIPS 202. */
module Lanes {

  type Lane = bv64

  type Octet = bv8

  /** Byte j of a lane. */
  function ByteOf(x: Lane, j: nat): Octet
    requires j < 8
  {
    match j
    case 0 => (x & 0xff) as Octet
    case 1 => ((x >> 8) & 0xff) as Octet
    case 2 => ((x >> 16) & 0xff) as Octet
    case 3 => ((x >> 24) & 0xff) as Octet
    case 4 => ((x >> 32) & 0xff) as Octet
    case 5 => ((x >> 40) & 0xff) as Octet
    case 6 => ((x >> 48) & 0xff) as Octet
    case _ => ((x >> 56) & 0xff) as Octet
  }

  function BitMask(j: nat): (m: Octet)
    requires j < 8
    ensures m != 0 && m & (m - 1) == 0
  {
    match j
    case 0 => 1 case 1 => 2 case 2 => 4 case 3 => 8
    case 4 => 16 case 5 => 32 case 6 => 64 case _ => 128
  }

  /** Bit j of a byte. */
  predicate ByteBit(b: Octet, j: nat)
    requires j < 8
  {
    b & BitMask(j) != 0
  }

  /** Bit z of a lane. */
  predicate Bit(x: Lane, z: nat)
    requires z < 64
  {
    ByteBit(ByteOf(x, z / 8), z % 8)
  }

  function Xor(a: Lane, b: Lane): Lane {
    a ^ b
  }

  function NotAnd(a: Lane, b: Lane): Lane {
    !a & b
  }

  /** ROTL64. */
  function Rotl(x: Lane, n: nat): Lane
    requires n < 64
  {
    Turn(x, n as bv7)
  }

  function Turn(x: Lane, a: bv7): Lane
    requires a <= 64
  {
    Or(Left(x, a), Right(x, 64 - a))
  }

  function Left(x: Lane, a: bv7): Lane
    requires a <= 64
  {
    x << a
  }

  function Right(x: Lane, a: bv7): Lane
    requires a <= 64
  {
    x >> a
  }

  // ----- Exclusive or, and with a complement -----

  function XorOctets(a: Octet, b: Octet): Octet {
    a ^ b
  }

  lemma MaskedXor(a: Octet, b: Octet, m: Octet)
    requires m & (m - 1) == 0
    ensures XorOctets(a, b) & m != 0 <==> (a & m != 0) != (b & m != 0)
  {
  }

  lemma ByteBitXor(a: Octet, b: Octet, j: nat)
    requires j < 8
    ensures ByteBit(XorOctets(a, b), j) <==> ByteBit(a, j) != ByteBit(b, j)
  {
    var m := BitMask(j);
    hide BitMask;
    MaskedXor(a, b, m);
  }

  lemma BytesOfXor(a: Lane, b: Lane)
    ensures ByteOf(a ^ b, 0) == ByteOf(a, 0) ^ ByteOf(b, 0)
    ensures ByteOf(a ^ b, 1) == ByteOf(a, 1) ^ ByteOf(b, 1)
    ensures ByteOf(a ^ b, 2) == ByteOf(a, 2) ^ ByteOf(b, 2)
    ensures ByteOf(a ^ b, 3) == ByteOf(a, 3) ^ ByteOf(b, 3)
    ensures ByteOf(a ^ b, 4) == ByteOf(a, 4) ^ ByteOf(b, 4)
    ensures ByteOf(a ^ b, 5) == ByteOf(a, 5) ^ ByteOf(b, 5)
    ensures ByteOf(a ^ b, 6) == ByteOf(a, 6) ^ ByteOf(b, 6)
    ensures ByteOf(a ^ b, 7) == ByteOf(a, 7) ^ ByteOf(b, 7)
  {
  }

  lemma ByteOfXor(a: Lane, b: Lane, j: nat)
    requires j < 8
    ensures ByteOf(Xor(a, b), j) == XorOctets(ByteOf(a, j), ByteOf(b, j))
  {
    hide ByteOf;
    BytesOfXor(a, b);
    match j {
      case 0 => case 1 => case 2 => case 3 => case 4 => case 5 => case 6 => case _ =>
    }
  }

  lemma XorBit(a: Lane, b: Lane, z: nat)
    requires z < 64
    ensures Bit(Xor(a, b), z) <==> Bit(a, z) != Bit(b, z)
  {
    hide ByteOf, ByteBit, Xor, XorOctets;
    ByteOfXor(a, b, z / 8);
    ByteBitXor(ByteOf(a, z / 8), ByteOf(b, z / 8), z % 8);
  }

  function And(a: Lane, b: Lane): Lane {
    a & b
  }

  function AndOctets(a: Octet, b: Octet): Octet {
    a & b
  }

  lemma MaskedAnd(a: Octet, b: Octet, m: Octet)
    requires m & (m - 1) == 0
    ensures AndOctets(a, b) & m != 0 <==> (a & m != 0) && (b & m != 0)
  {
  }

  lemma ByteBitAnd(a: Octet, b: Octet, j: nat)
    requires j < 8
    ensures ByteBit(AndOctets(a, b), j) <==> ByteBit(a, j) && ByteBit(b, j)
  {
    var m := BitMask(j);
    hide BitMask;
    MaskedAnd(a, b, m);
  }

  lemma BytesOfAnd(a: Lane, b: Lane)
    ensures ByteOf(And(a, b), 0) == AndOctets(ByteOf(a, 0), ByteOf(b, 0))
    ensures ByteOf(And(a, b), 1) == AndOctets(ByteOf(a, 1), ByteOf(b, 1))
    ensures ByteOf(And(a, b), 2) == AndOctets(ByteOf(a, 2), ByteOf(b, 2))
    ensures ByteOf(And(a, b), 3) == AndOctets(ByteOf(a, 3), ByteOf(b, 3))
    ensures ByteOf(And(a, b), 4) == AndOctets(ByteOf(a, 4), ByteOf(b, 4))
    ensures ByteOf(And(a, b), 5) == AndOctets(ByteOf(a, 5), ByteOf(b, 5))
    ensures ByteOf(And(a, b), 6) == AndOctets(ByteOf(a, 6), ByteOf(b, 6))
    ensures ByteOf(And(a, b), 7) == AndOctets(ByteOf(a, 7), ByteOf(b, 7))
  {
  }

  lemma ByteOfAnd(a: Lane, b: Lane, j: nat)
    requires j < 8
    ensures ByteOf(And(a, b), j) == AndOctets(ByteOf(a, j), ByteOf(b, j))
  {
    hide ByteOf, And, AndOctets;
    BytesOfAnd(a, b);
    match j {
      case 0 => case 1 => case 2 => case 3 => case 4 => case 5 => case 6 => case _ =>
    }
  }

  lemma AndBit(a: Lane, b: Lane, z: nat)
    requires z < 64
    ensures Bit(And(a, b), z) <==> Bit(a, z) && Bit(b, z)
  {
    hide ByteOf, ByteBit, And, AndOctets;
    ByteOfAnd(a, b, z / 8);
    ByteBitAnd(ByteOf(a, z / 8), ByteOf(b, z / 8), z % 8);
  }

  lemma NotAndIsXor(a: Lane, b: Lane)
    ensures NotAnd(a, b) == Xor(b, And(a, b))
  {
  }

  lemma NotAndBit(a: Lane, b: Lane, z: nat)
    requires z < 64
    ensures Bit(NotAnd(a, b), z) <==> !Bit(a, z) && Bit(b, z)
  {
    hide Bit, NotAnd, And, Xor;
    NotAndIsXor(a, b);
    XorBit(b, And(a, b), z);
    AndBit(a, b, z);
  }

  // ----- Rotation by one -----

  function TurnOne(x: Lane): Lane {
    (x << 1) | (x >> 63)
  }

  /** b moved up by one bit, with the top bit of c below. */
  function Joint(b: Octet, c: Octet): Octet {
    (b << 1) | (c >> 7)
  }

  lemma TurnOneByte(x: Lane, j: nat)
    requires j < 8
    ensures ByteOf(TurnOne(x), j) == Joint(ByteOf(x, j), ByteOf(x, if j == 0 then 7 else j - 1))
  {
    match j {
      case 0 => case 1 => case 2 => case 3 => case 4 => case 5 => case 6 => case _ =>
    }
  }

  lemma MaskedJoint(b: Octet, c: Octet, m: Octet)
    requires m & (m - 1) == 0 && m != 128
    ensures Joint(b, c) & (m << 1) != 0 <==> b & m != 0
    ensures Joint(b, c) & 1 != 0 <==> c & 128 != 0
  {
  }

  lemma BitMaskStep(j: nat)
    requires 0 < j < 8
    ensures BitMask(j - 1) != 128 && BitMask(j) == BitMask(j - 1) << 1
  {
  }

  lemma ByteBitJoint(b: Octet, c: Octet, j: nat)
    requires j < 8
    ensures ByteBit(Joint(b, c), j) <==> if j == 0 then ByteBit(c, 7) else ByteBit(b, j - 1)
  {
    hide Joint;
    if j == 0 {
      MaskedJoint(b, c, 1);
    } else {
      BitMaskStep(j);
      MaskedJoint(b, c, BitMask(j - 1));
    }
  }

  lemma TurnOneBit(x: Lane, z: nat)
    requires z < 64
    ensures Bit(TurnOne(x), z) == Bit(x, (z - 1) % 64)
  {
    hide ByteOf, ByteBit, TurnOne, Joint;
    var i, j := z / 8, z % 8;
    TurnOneByte(x, i);
    ByteBitJoint(ByteOf(x, i), ByteOf(x, if i == 0 then 7 else i - 1), j);
    assert (z - 1) % 64 == if z == 0 then 63 else z - 1;
  }

  // ----- Rotation by any amount -----

  function Or(a: Lane, b: Lane): Lane {
    a | b
  }

  function Doubled(x: Lane): Lane {
    x << 1
  }

  function Halved(x: Lane): Lane {
    x >> 1
  }

  /** The bit that leaves u at the top is the one that leaves y at the bottom. */
  predicate Meet(u: Lane, y: Lane) {
    u >> 63 == y & 1
  }

  lemma LeftEven(x: Lane, a: bv7)
    requires a < 63 && a & 1 == 0
    ensures Left(x, a + 1) == Doubled(Left(x, a))
  {
  }

  lemma LeftOdd(x: Lane, a: bv7)
    requires a < 63 && a & 1 != 0
    ensures Left(x, a + 1) == Doubled(Left(x, a))
  {
  }

  lemma LeftStep(x: Lane, a: bv7)
    requires a < 63
    ensures Left(x, a + 1) == Doubled(Left(x, a))
  {
    hide Left, Doubled;
    if a & 1 == 0 { LeftEven(x, a); } else { LeftOdd(x, a); }
  }

  lemma RightEven(x: Lane, b: bv7)
    requires b < 64 && b & 1 == 0
    ensures Right(x, b + 1) == Halved(Right(x, b))
  {
  }

  lemma RightOdd(x: Lane, b: bv7)
    requires b < 64 && b & 1 != 0
    ensures Right(x, b + 1) == Halved(Right(x, b))
  {
  }

  lemma RightStep(x: Lane, b: bv7)
    requires b < 64
    ensures Right(x, b + 1) == Halved(Right(x, b))
  {
    hide Right, Halved;
    if b & 1 == 0 { RightEven(x, b); } else { RightOdd(x, b); }
  }

  lemma SidesMeet(x: Lane, a: bv7)
    requires a < 64
    ensures Meet(Left(x, a), Right(x, 63 - a))
  {
  }

  lemma TurnOneOf(u: Lane, y: Lane)
    requires Meet(u, y)
    ensures Or(Doubled(u), y) == TurnOne(Or(u, Halved(y)))
  {
  }

  lemma Complement(a: bv7)
    requires a < 63
    ensures 64 - (a + 1) == 63 - a && (63 - a) + 1 == 64 - a && 63 - a < 64
  {
  }

  lemma TurnStep(x: Lane, a: bv7)
    requires a < 63
    ensures Turn(x, a + 1) == TurnOne(Turn(x, a))
  {
    hide TurnOne, Left, Right, Or, Doubled, Halved, Meet;
    Complement(a);
    LeftStep(x, a);
    RightStep(x, 63 - a);
    SidesMeet(x, a);
    TurnOneOf(Left(x, a), Right(x, 63 - a));
  }

  lemma Amount(n: nat)
    requires n < 64
    ensures (n as bv7) as nat == n
  {
  }

  lemma NextAmount(n: nat)
    requires n < 63
    ensures (n as bv7) < 63 && ((n + 1) as bv7) == (n as bv7) + 1
  {
    Amount(n);
    Amount(n + 1);
  }

  lemma TurnNone(x: Lane)
    ensures Rotl(x, 0) == x
  {
  }

  lemma RotlStep(x: Lane, n: nat)
    requires n < 63
    ensures Rotl(x, n + 1) == TurnOne(Rotl(x, n))
  {
    hide Turn, TurnOne;
    NextAmount(n);
    TurnStep(x, n as bv7);
  }

  /** ROTL64 takes bit z from position z - n, modulo 64. */
  lemma {:induction false} RotlBit(x: Lane, n: nat, z: nat)
    requires n < 64 && z < 64
    ensures Bit(Rotl(x, n), z) == Bit(x, (z - n) % 64)
    decreases n
  {
    hide Bit, Rotl, TurnOne;
    if n == 0 {
      TurnNone(x);
    } else {
      RotlStep(x, n - 1);
      TurnOneBit(Rotl(x, n - 1), z);
      RotlBit(x, n - 1, (z - 1) % 64);
      assert ((z - 1) % 64 - (n - 1)) % 64 == (z - n) % 64;
    }
  }
}
