/** The digits and letters of ASCII, written out. */
module DigitTable {
  import opened Bytes

  function Small(d: nat): char
    requires d < 36
  {
    match d
    case 0 => '0' case 1 => '1' case 2 => '2' case 3 => '3' case 4 => '4' case 5 => '5' case 6 => '6' case 7 => '7' case 8 => '8'
    case 9 => '9' case 10 => 'a' case 11 => 'b' case 12 => 'c' case 13 => 'd' case 14 => 'e' case 15 => 'f' case 16 => 'g' case 17 => 'h'
    case 18 => 'i' case 19 => 'j' case 20 => 'k' case 21 => 'l' case 22 => 'm' case 23 => 'n' case 24 => 'o' case 25 => 'p' case 26 => 'q'
    case 27 => 'r' case 28 => 's' case 29 => 't' case 30 => 'u' case 31 => 'v' case 32 => 'w' case 33 => 'x' case 34 => 'y' case _ => 'z'
  }

  function Capital(d: nat): char
    requires d < 36
  {
    match d
    case 0 => '0' case 1 => '1' case 2 => '2' case 3 => '3' case 4 => '4' case 5 => '5' case 6 => '6' case 7 => '7' case 8 => '8'
    case 9 => '9' case 10 => 'A' case 11 => 'B' case 12 => 'C' case 13 => 'D' case 14 => 'E' case 15 => 'F' case 16 => 'G' case 17 => 'H'
    case 18 => 'I' case 19 => 'J' case 20 => 'K' case 21 => 'L' case 22 => 'M' case 23 => 'N' case 24 => 'O' case 25 => 'P' case 26 => 'Q'
    case 27 => 'R' case 28 => 'S' case 29 => 'T' case 30 => 'U' case 31 => 'V' case 32 => 'W' case 33 => 'X' case 34 => 'Y' case _ => 'Z'
  }

  /** The digit of value d, in capitals or not. */
  function Letter(d: nat, capital: bool): (c: Byte)
    requires d < 36
    ensures 48 <= c <= 122
  {
    if capital then Code(Capital(d)) else Code(Small(d))
  }

  lemma CapitalIsLess(d: nat)
    requires d < 36
    ensures if d < 10 then Letter(d, true) == Letter(d, false) else Letter(d, false) == Letter(d, true) + 32
    ensures 48 <= Letter(d, true) <= 90
  {
    match d {
      case 0 => case 1 => case 2 => case 3 => case 4 => case 5 => case 6 => case 7 => case 8 => case 9 => case 10 => case 11 =>
      case 12 => case 13 => case 14 => case 15 => case 16 => case 17 => case 18 => case 19 => case 20 => case 21 => case 22 => case 23 =>
      case 24 => case 25 => case 26 => case 27 => case 28 => case 29 => case 30 => case 31 => case 32 => case 33 => case 34 => case _ =>
    }
  }

  lemma LettersInOrder(d: nat)
    requires 10 <= d < 36
    ensures Letter(d, true) == 55 + d && Letter(d, false) == 87 + d
  {
    match d {
      case 10 => case 11 => case 12 => case 13 => case 14 => case 15 => case 16 => case 17 => case 18 => case 19 => case 20 => case 21 => case 22 =>
      case 23 => case 24 => case 25 => case 26 => case 27 => case 28 => case 29 => case 30 => case 31 => case 32 => case 33 => case 34 => case _ =>
    }
  }
}
