/** Numerals in strings: what a run of digits is worth, and the subject sequence of
    section 7.22.1.4 of ISO C11. */
module Numerals {
  import opened Bytes

  /** The value of a character as a digit; 36 stands for no digit. */
  function DigitValue(c: int): (d: nat)
    ensures d <= 36
  {
    if IsDigit(c) then c - Code('0')
    else if Code('A') <= c <= Code('Z') then c - Code('A') + 10
    else if Code('a') <= c <= Code('z') then c - Code('a') + 10
    else 36
  }

  /** The first position from i on that does not hold a white-space character. */
  function SpaceEnd(s: seq<Byte>, i: nat): (j: nat)
    requires Terminated(s) && i < |s|
    ensures i <= j < |s| && !IsSpace(s[j]) && forall k :: i <= k < j ==> IsSpace(s[k])
    decreases |s| - i
  {
    if IsSpace(s[i]) then SpaceEnd(s, i + 1) else i
  }

  /** The same for the narrower ISSPACE of libc.c, which leaves out \f and \v. */
  function PlainSpaceEnd(s: seq<Byte>, i: nat): (j: nat)
    requires Terminated(s) && i < |s|
    ensures i <= j < |s| && !IsPlainSpace(s[j]) && forall k :: i <= k < j ==> IsPlainSpace(s[k])
    decreases |s| - i
  {
    if IsPlainSpace(s[i]) then PlainSpaceEnd(s, i + 1) else i
  }

  predicate AllDigits(s: seq<Byte>, i: nat, j: nat, base: nat)
    requires j <= |s|
  {
    forall k :: i <= k < j ==> DigitValue(s[k]) < base
  }

  /** The first position from i on that does not hold a digit of the base. */
  function DigitsEnd(s: seq<Byte>, i: nat, base: nat): (j: nat)
    requires Terminated(s) && i < |s| && base <= 36
    ensures i <= j < |s| && DigitValue(s[j]) >= base && AllDigits(s, i, j, base)
    decreases |s| - i
  {
    if DigitValue(s[i]) < base then DigitsEnd(s, i + 1, base) else i
  }

  /** The value of the digits s[i..j]. */
  function Value(s: seq<Byte>, i: nat, j: nat, base: nat): nat
    requires i <= j <= |s|
    decreases j
  {
    if i == j then 0 else Value(s, i, j - 1, base) * base + DigitValue(s[j - 1])
  }

  // ----- The subject sequence of the standard -----

  predicate ValidBase(base: int) {
    base == 0 || 2 <= base <= 36
  }

  predicate IsSign(c: int) {
    c == Code('+') || c == Code('-')
  }

  predicate Digits(s: seq<Byte>, i: nat, j: nat, base: nat) {
    i < j <= |s| && AllDigits(s, i, j, base)
  }

  /** 0x or 0X and hexadecimal digits. */
  predicate HexForm(s: seq<Byte>, i: nat, j: nat) {
    i + 2 < j <= |s| && s[i] == Code('0') && (s[i + 1] == Code('x') || s[i + 1] == Code('X')) && Digits(s, i + 2, j, 16)
  }

  /** An unsigned numeral of the expected form, s[i..j]. */
  predicate Unsigned(s: seq<Byte>, i: nat, j: nat, base: int) {
    if base == 0 then
      || (Digits(s, i, j, 10) && s[i] != Code('0'))
      || (Digits(s, i, j, 8) && s[i] == Code('0'))
      || HexForm(s, i, j)
    else if base == 16 then Digits(s, i, j, 16) || HexForm(s, i, j)
    else base > 0 && Digits(s, i, j, base)
  }

  /** The expected form: an optional sign and an unsigned numeral. */
  predicate Subject(s: seq<Byte>, i: nat, j: nat, base: int) {
    || Unsigned(s, i, j, base)
    || (i < |s| && IsSign(s[i]) && Unsigned(s, i + 1, j, base))
  }

  ghost predicate Longest(s: seq<Byte>, i: nat, j: nat, base: int) {
    && Subject(s, i, j, base)
    && forall k: nat {:trigger Subject(s, i, k, base)} :: Subject(s, i, k, base) ==> k <= j
  }

  /** The magnitude that an unsigned numeral denotes. */
  function Magnitude(s: seq<Byte>, i: nat, j: nat, base: int): nat
    requires Unsigned(s, i, j, base)
  {
    if (base == 0 || base == 16) && HexForm(s, i, j) then Value(s, i + 2, j, 16)
    else if base == 0 then (if s[i] == Code('0') then Value(s, i, j, 8) else Value(s, i, j, 10))
    else Value(s, i, j, base)
  }

  /** The number that a subject sequence denotes. */
  function Denoted(s: seq<Byte>, i: nat, j: nat, base: int): int
    requires Subject(s, i, j, base)
  {
    if Unsigned(s, i, j, base) then Magnitude(s, i, j, base)
    else if s[i] == Code('-') then -(Magnitude(s, i + 1, j, base) as int)
    else Magnitude(s, i + 1, j, base)
  }

  // ----- How the program reads a numeral -----

  /** Sign, position of the first digit and effective base, from the first character that is not a space. */
  datatype Lead = Lead(neg: bool, first: nat, base: int)

  predicate SkipsPrefix(s: seq<Byte>, k: nat, base: int) {
    (base == 0 || base == 16) && k + 2 < |s| && s[k] == Code('0')
    && (s[k + 1] == Code('x') || s[k + 1] == Code('X')) && DigitValue(s[k + 2]) < 16
  }

  /** The first digit and the effective base, from the character after the sign. */
  function Start(s: seq<Byte>, k: nat, base: int): (r: (nat, int))
    requires Terminated(s) && k < |s|
    ensures k <= r.0 < |s| && (ValidBase(base) ==> 2 <= r.1 <= 36)
  {
    if SkipsPrefix(s, k, base) then (k + 2, 16)
    else if base == 0 then (k, if s[k] == Code('0') then 8 else 10)
    else (k, base)
  }

  /** The position after an optional sign. */
  function AfterSign(s: seq<Byte>, i: nat): (k: nat)
    requires Terminated(s) && i < |s|
    ensures i <= k < |s|
  {
    if IsSign(s[i]) then i + 1 else i
  }

  function LeadOf(s: seq<Byte>, i: nat, base: int): (l: Lead)
    requires Terminated(s) && i < |s|
    ensures i <= l.first < |s| && (ValidBase(base) ==> 2 <= l.base <= 36)
  {
    var (first, b) := Start(s, AfterSign(s, i), base);
    Lead(s[i] == Code('-'), first, b)
  }

  lemma DigitsReach(s: seq<Byte>, i: nat, j: nat, base: nat)
    requires Terminated(s) && i < |s| && base <= 36
    ensures Digits(s, i, j, base) <==> i < j <= DigitsEnd(s, i, base)
  {
  }

  /** Reading unsigned numerals: prefix and digits make the longest one there is. */
  lemma UnsignedReach(s: seq<Byte>, k: nat, j: nat, base: int)
    requires Terminated(s) && k < |s| && ValidBase(base)
    ensures var (first, b) := Start(s, k, base);
            var e := DigitsEnd(s, first, b);
            && (Unsigned(s, k, j, base) ==> j <= e && e > first)
            && (e > first ==> Unsigned(s, k, e, base) && Magnitude(s, k, e, base) == Value(s, first, e, b))
  {
    var (first, b) := Start(s, k, base);
    DigitsReach(s, first, j, b);
    DigitsReach(s, first, DigitsEnd(s, first, b), b);
  }

  lemma SubjectIsSignAndUnsigned(s: seq<Byte>, i: nat, j: nat, base: int)
    requires Terminated(s) && i < |s| && ValidBase(base)
    ensures Subject(s, i, j, base) <==> Unsigned(s, AfterSign(s, i), j, base)
    ensures Subject(s, i, j, base) ==>
              var m: int := Magnitude(s, AfterSign(s, i), j, base);
              Denoted(s, i, j, base) == if s[i] == Code('-') then -m else m
  {
  }

  /** The program stops after the longest subject sequence, has read the number it
      denotes, and finds no digit exactly when there is no subject sequence. */
  lemma ReadsLongestSubject(s: seq<Byte>, i: nat, base: int)
    requires Terminated(s) && i < |s| && ValidBase(base)
    ensures var l := LeadOf(s, i, base);
            var e := DigitsEnd(s, l.first, l.base);
            var m: int := Value(s, l.first, e, l.base);
            if e > l.first
            then Longest(s, i, e, base) && Denoted(s, i, e, base) == if l.neg then -m else m
            else forall j: nat :: !Subject(s, i, j, base)
  {
    hide Subject, Unsigned, Magnitude, Denoted, Start, Value, DigitsEnd, SkipsPrefix;
    var k := AfterSign(s, i);
    var l := LeadOf(s, i, base);
    var e := DigitsEnd(s, l.first, l.base);
    forall j: nat
      ensures Subject(s, i, j, base) ==> j <= e && e > l.first
    {
      UnsignedReach(s, k, j, base);
      SubjectIsSignAndUnsigned(s, i, j, base);
    }
    UnsignedReach(s, k, e, base);
    SubjectIsSignAndUnsigned(s, i, e, base);
  }
}
