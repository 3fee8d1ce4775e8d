/** Numerals as they are written, from a table of digits, and that they are read back. */
module WrittenNumerals {
  import opened Bytes
  import opened DigitTable
  import opened Limits
  import opened Numerals
  import opened StringToNumber

  lemma CapitalValue(d: nat)
    requires d < 36
    ensures DigitValue(Code(Capital(d))) == d
  {
    match d {
      case 0 => case 1 => case 2 => case 3 => case 4 => case 5 => case 6 => case 7 => case 8 => case 9 => case 10 => case 11 =>
      case 12 => case 13 => case 14 => case 15 => case 16 => case 17 => case 18 => case 19 => case 20 => case 21 => case 22 => case 23 =>
      case 24 => case 25 => case 26 => case 27 => case 28 => case 29 => case 30 => case 31 => case 32 => case 33 => case 34 => case _ =>
    }
  }

  lemma SmallValue(d: nat)
    requires d < 36
    ensures DigitValue(Code(Small(d))) == d
  {
    match d {
      case 0 => case 1 => case 2 => case 3 => case 4 => case 5 => case 6 => case 7 => case 8 => case 9 => case 10 => case 11 =>
      case 12 => case 13 => case 14 => case 15 => case 16 => case 17 => case 18 => case 19 => case 20 => case 21 => case 22 => case 23 =>
      case 24 => case 25 => case 26 => case 27 => case 28 => case 29 => case 30 => case 31 => case 32 => case 33 => case 34 => case _ =>
    }
  }

  /** The program's value of a character is its place in the tables, and only characters
      of the tables have one. */
  lemma DigitValueIsPlace(d: nat, capital: bool)
    requires d < 36
    ensures DigitValue(Letter(d, capital)) == d
  {
    hide DigitValue, Capital, Small;
    CapitalValue(d);
    SmallValue(d);
  }

  lemma PlaceIsUnique(c: Byte, e: Byte)
    requires DigitValue(c) == DigitValue(e) < 36
    ensures c == e || (c >= 65 && e >= 65 && (c == e + 32 || e == c + 32))
  {
  }

  lemma OnlyTheTable(c: Byte)
    ensures DigitValue(c) < 36 ==> c == Letter(DigitValue(c), true) || c == Letter(DigitValue(c), false)
  {
    var d := DigitValue(c);
    if d < 36 {
      DigitValueIsPlace(d, true);
      CapitalIsLess(d);
      PlaceIsUnique(c, Letter(d, true));
      SmallOnly(c);
      hide Letter;
    }
  }

  lemma SmallOnly(c: Byte)
    requires DigitValue(c) < 36
    ensures c <= 122
    ensures DigitValue(c) < 10 <==> c < 65
  {
  }

  /** n in the given base, without leading zeros. */
  function Written(n: nat, base: nat, capital: bool): (w: seq<Byte>)
    requires 2 <= base <= 36
    ensures w != []
    decreases n
  {
    hide Letter;
    if n < base then [Letter(n, capital)] else
      DivMod(n, base);
      Written(n / base, base, capital) + [Letter(n % base, capital)]
  }

  /** The last digit and what stands before it. */
  lemma LastDigit(n: nat, base: nat, capital: bool) returns (q: nat, r: nat)
    requires 2 <= base <= 36 && n >= base
    ensures 0 < q < n && r < base && n == q * base + r
    ensures Written(n, base, capital) == Written(q, base, capital) + [Letter(r, capital)]
  {
    q, r := n / base, n % base;
    DivMod(n, base);
  }

  lemma DivMod(n: nat, base: nat)
    requires 2 <= base <= n
    ensures n / base * base + n % base == n && 0 < n / base < n
  {
  }

  lemma OneDigit(n: nat, base: nat, capital: bool)
    requires 2 <= base <= 36 && n < base
    ensures Written(n, base, capital) == [Letter(n, capital)]
  {
  }

  lemma {:induction false} WrittenDigits(n: nat, base: nat, capital: bool, i: nat)
    requires 2 <= base <= 36 && i < |Written(n, base, capital)|
    ensures 48 <= Written(n, base, capital)[i] && DigitValue(Written(n, base, capital)[i]) < base
    ensures i == 0 && n > 0 ==> Written(n, base, capital)[0] != Code('0')
    decreases n
  {
    hide Letter, DigitValue, Written;
    if n < base {
      OneDigit(n, base, capital);
      DigitValueIsPlace(n, capital);
      NotZero(n, capital);
    } else {
      var q, r := LastDigit(n, base, capital);
      DigitValueIsPlace(r, capital);
      if i < |Written(q, base, capital)| {
        WrittenDigits(q, base, capital, i);
      }
    }
  }

  lemma NotZero(d: nat, capital: bool)
    requires d < 36
    ensures Letter(d, capital) == Code('0') <==> d == 0
  {
  }

  lemma SliceSnoc<T>(s: seq<T>, i: nat, w: seq<T>, c: T)
    requires i + |w| + 1 <= |s| && s[i..i + |w| + 1] == w + [c]
    ensures s[i..i + |w|] == w && s[i + |w|] == c
  {
    assert s[i..i + |w|] == s[i..i + |w| + 1][..|w|];
    assert s[i + |w|] == s[i..i + |w| + 1][|w|];
  }

  lemma ValueSnoc(s: seq<Byte>, i: nat, j: nat, base: nat, d: nat)
    requires i <= j < |s| && DigitValue(s[j]) == d
    ensures Value(s, i, j + 1, base) == Value(s, i, j, base) * base + d
    ensures Value(s, i, i, base) == 0
  {
  }

  /** The digits of n, wherever they stand, are worth n. */
  lemma {:induction false} WrittenValue(n: nat, base: nat, capital: bool, s: seq<Byte>, i: nat)
    requires 2 <= base <= 36 && i + |Written(n, base, capital)| <= |s|
    requires s[i..i + |Written(n, base, capital)|] == Written(n, base, capital)
    ensures Value(s, i, i + |Written(n, base, capital)|, base) == n
    decreases n
  {
    hide Letter, DigitValue, Value, Written;
    if n < base {
      OneDigit(n, base, capital);
      assert s[i] == s[i..i + 1][0];
      DigitValueIsPlace(n, capital);
      ValueSnoc(s, i, i, base, n);
    } else {
      var q, r := LastDigit(n, base, capital);
      var w := Written(q, base, capital);
      SliceSnoc(s, i, w, Letter(r, capital));
      DigitValueIsPlace(r, capital);
      WrittenValue(q, base, capital, s, i);
      ValueSnoc(s, i, i + |w|, base, r);
    }
  }

  lemma {:induction false} LeadingZero(s: seq<Byte>, i: nat, j: nat, base: nat)
    requires i < j <= |s| && s[i] == Code('0')
    ensures Value(s, i, j, base) == Value(s, i + 1, j, base)
    decreases j
  {
    if j == i + 1 {
      assert Value(s, i, i, base) == 0;
    } else {
      LeadingZero(s, i, j - 1, base);
    }
  }

  // ----- Strings that hold a written numeral -----

  /** Digits from i on to the NUL at the end. */
  ghost predicate HoldsAt(s: seq<Byte>, i: nat, n: nat, base: nat, capital: bool) {
    2 <= base <= 36 && i < |s| && s[i..] == Written(n, base, capital) + [0]
  }

  lemma HeldDigits(s: seq<Byte>, i: nat, n: nat, base: nat, capital: bool)
    requires HoldsAt(s, i, n, base, capital)
    ensures Terminated(s) && i + 1 < |s| && 48 <= s[i]
    ensures n > 0 ==> s[i] != Code('0')
    ensures forall k :: i <= k < |s| - 1 ==> DigitValue(s[k]) < base
    ensures Value(s, i, |s| - 1, base) == n
  {
    hide DigitValue, Written, Value;
    var w := Written(n, base, capital);
    forall k | i <= k < |s|
      ensures s[k] == (w + [0])[k - i]
    {
      assert s[k] == s[i..][k - i];
    }
    forall k | i <= k < |s| - 1
      ensures DigitValue(s[k]) < base
    {
      WrittenDigits(n, base, capital, k - i);
    }
    WrittenDigits(n, base, capital, 0);
    assert s[i..i + |w|] == w;
    WrittenValue(n, base, capital, s, i);
  }

  lemma NulIsNoDigit(s: seq<Byte>, first: nat, base: nat)
    requires Terminated(s) && first < |s| - 1 && 2 <= base <= 36
    requires forall k :: first <= k < |s| - 1 ==> DigitValue(s[k]) < base
    ensures DigitsEnd(s, first, base) == |s| - 1
  {
    DigitsReach(s, first, |s| - 1, base);
  }

  /** The prefixes after which digits of base b are read, when base is asked for. */
  predicate Prefix(prefix: seq<Byte>, base: int, b: nat, n: nat) {
    || (prefix == [] && base == b && 2 <= b <= 36)
    || ((prefix == [48, 120] || prefix == [48, 88]) && (base == 0 || base == 16) && b == 16)
    || (prefix == [48] && base == 0 && b == 8)
    || (prefix == [] && base == 0 && b == 10 && n > 0)
  }

  /** The x of a prefix is no digit of a base up to 33. */
  lemma XIsNoDigit(c: Byte, base: nat)
    requires DigitValue(c) < base && base <= 33
    ensures c != Code('x') && c != Code('X')
  {
  }

  lemma StartOfWritten(s: seq<Byte>, k: nat, prefix: seq<Byte>, base: int, b: nat, n: nat, capital: bool)
    requires Prefix(prefix, base, b, n) && k + |prefix| < |s| && s[k..k + |prefix|] == prefix
    requires HoldsAt(s, k + |prefix|, n, b, capital)
    ensures Terminated(s) && Start(s, k, base) == (if prefix == [48] then k else k + |prefix|, b)
  {
    hide DigitValue, HoldsAt;
    var i := k + |prefix|;
    HeldDigits(s, i, n, b, capital);
    assert forall j :: 0 <= j < |prefix| ==> s[k + j] == s[k..k + |prefix|][j] == prefix[j];
    var next := if prefix == [48] then i else k + 1;
    NulIsNoX();
    if prefix != [48, 120] && prefix != [48, 88] && b <= 16 && next < |s| - 1 {
      XIsNoDigit(s[next], b);
    }
  }

  lemma NulIsNoX()
    ensures DigitValue(0) == 36
  {
  }

  lemma WrittenSpan(s: seq<Byte>, k: nat, prefix: seq<Byte>, base: int, b: nat, n: nat, capital: bool)
    requires Prefix(prefix, base, b, n) && k + |prefix| < |s| && s[k..k + |prefix|] == prefix
    requires HoldsAt(s, k + |prefix|, n, b, capital)
    ensures Terminated(s)
    ensures var (first, b') := Start(s, k, base);
            && b' == b && DigitsEnd(s, first, b) == |s| - 1 && first < |s| - 1
            && Value(s, first, |s| - 1, b) == n
  {
    hide Start, HoldsAt, Value, DigitsEnd, DigitValue;
    StartOfWritten(s, k, prefix, base, b, n, capital);
    HeldDigits(s, k + |prefix|, n, b, capital);
    if prefix == [48] {
      assert s[k] == s[k..k + 1][0] == 48;
      ZeroIsDigit();
      LeadingZero(s, k, |s| - 1, b);
      NulIsNoDigit(s, k, b);
    } else {
      NulIsNoDigit(s, k + |prefix|, b);
    }
  }

  lemma ZeroIsDigit()
    ensures DigitValue(48) == 0
  {
  }

  predicate Sign(sign: seq<Byte>) {
    sign == [] || sign == [43] || sign == [45]
  }

  predicate Spaces(spaces: seq<Byte>) {
    forall c :: c in spaces ==> c == 32 || 9 <= c <= 13
  }

  /** White space, a sign, a prefix, the numeral and a NUL. */
  function Line(spaces: seq<Byte>, sign: seq<Byte>, prefix: seq<Byte>, n: nat, b: nat, capital: bool): (s: seq<Byte>)
    requires 2 <= b <= 36
    ensures Terminated(s)
    ensures |s| == |spaces| + |sign| + |prefix| + |Written(n, b, capital)| + 1
  {
    hide Written;
    spaces + sign + prefix + Written(n, b, capital) + [0]
  }

  lemma LineParts(spaces: seq<Byte>, sign: seq<Byte>, prefix: seq<Byte>, n: nat, b: nat, capital: bool)
    requires 2 <= b <= 36
    ensures var s, i, k := Line(spaces, sign, prefix, n, b, capital), |spaces|, |spaces| + |sign|;
            && s[..i] == spaces && s[i..k] == sign && s[k..k + |prefix|] == prefix
            && HoldsAt(s, k + |prefix|, n, b, capital)
  {
    hide Written;
    var w := Written(n, b, capital);
    var s := Line(spaces, sign, prefix, n, b, capital);
    assert s == spaces + (sign + prefix + w + [0]);
    assert s == spaces + sign + (prefix + w + [0]);
    assert s == spaces + sign + prefix + (w + [0]);
  }

  lemma LineStarts(spaces: seq<Byte>, sign: seq<Byte>, prefix: seq<Byte>, base: int, n: nat, b: nat, capital: bool)
    requires Spaces(spaces) && Sign(sign) && Prefix(prefix, base, b, n)
    ensures var s := Line(spaces, sign, prefix, n, b, capital);
            && SpaceEnd(s, 0) == |spaces| && AfterSign(s, |spaces|) == |spaces| + |sign|
            && (s[|spaces|] == Code('-') <==> sign == [45])
  {
    hide Line, HoldsAt, SpaceEnd, Written;
    LineParts(spaces, sign, prefix, n, b, capital);
    var s, i, k := Line(spaces, sign, prefix, n, b, capital), |spaces|, |spaces| + |sign|;
    FirstIsNoSpace(s, k, prefix, base, b, n, capital);
    forall j | 0 <= j < i
      ensures IsSpace(s[j])
    {
      assert s[j] == s[..i][j] == spaces[j];
      assert spaces[j] in spaces;
    }
    if sign != [] {
      assert s[i] == s[i..k][0] == sign[0];
    }
    SpaceEndUnique(s, 0, i);
  }

  /** A written numeral is read back, behind any white space and sign and with the
      prefix that its base needs. */
  lemma ReadsBack(spaces: seq<Byte>, sign: seq<Byte>, prefix: seq<Byte>, base: int, n: nat, b: nat, capital: bool)
    requires Spaces(spaces) && Sign(sign) && Prefix(prefix, base, b, n)
    ensures var s := Line(spaces, sign, prefix, n, b, capital);
            Parse(s, base) == Numeral(sign == [45], n, |s| - 1)
  {
    hide Line, HoldsAt, SpaceEnd, Start, DigitsEnd, Value, AfterSign, Written;
    LineStarts(spaces, sign, prefix, base, n, b, capital);
    LineParts(spaces, sign, prefix, n, b, capital);
    WrittenSpan(Line(spaces, sign, prefix, n, b, capital), |spaces| + |sign|, prefix, base, b, n, capital);
  }

  lemma FirstIsNoSpace(s: seq<Byte>, k: nat, prefix: seq<Byte>, base: int, b: nat, n: nat, capital: bool)
    requires Prefix(prefix, base, b, n) && k + |prefix| < |s| && s[k..k + |prefix|] == prefix
    requires HoldsAt(s, k + |prefix|, n, b, capital)
    ensures Terminated(s) && s[k] >= 48
  {
    hide HoldsAt;
    HeldDigits(s, k + |prefix|, n, b, capital);
    assert prefix != [] ==> s[k] == s[k..k + |prefix|][0];
  }

  /** What strtoull makes of a written numeral: the number, its negation modulo 2^64, or
      saturation. */
  lemma UnsignedFromWritten(spaces: seq<Byte>, prefix: seq<Byte>, base: int, n: nat, b: nat, capital: bool)
    requires Spaces(spaces) && Prefix(prefix, base, b, n)
    ensures var s := Line(spaces, [], prefix, n, b, capital);
            ToUnsigned(Parse(s, base)) == if n < 0x1_0000_0000_0000_0000 then Conversion(n, |s| - 1, Unchanged)
                                          else Conversion(0xffff_ffff_ffff_ffff, |s| - 1, ERANGE)
    ensures var s := Line(spaces, [45], prefix, n, b, capital);
            ToUnsigned(Parse(s, base)) == if n == 0 then Conversion(0, |s| - 1, Unchanged)
                                          else if n < 0x1_0000_0000_0000_0000 then Conversion(0x1_0000_0000_0000_0000 - n, |s| - 1, Unchanged)
                                          else Conversion(0xffff_ffff_ffff_ffff, |s| - 1, ERANGE)
  {
    hide Parse, Line;
    ReadsBack(spaces, [], prefix, base, n, b, capital);
    ReadsBack(spaces, [45], prefix, base, n, b, capital);
  }

  /** What strtoll makes of it: the number, or the nearest that long long holds, except
      for negative numbers beyond the range of unsigned long long. */
  lemma SignedFromWritten(spaces: seq<Byte>, prefix: seq<Byte>, base: int, n: nat, b: nat, capital: bool)
    requires Spaces(spaces) && Prefix(prefix, base, b, n)
    ensures var s := Line(spaces, [], prefix, n, b, capital);
            ToSigned(Parse(s, base), LLONG_MIN, LLONG_MAX) ==
              if n < 0x8000_0000_0000_0000 then Conversion(n, |s| - 1, Unchanged)
              else Conversion(0x7fff_ffff_ffff_ffff, |s| - 1, ERANGE)
    ensures var s := Line(spaces, [45], prefix, n, b, capital);
            ToSigned(Parse(s, base), LLONG_MIN, LLONG_MAX) ==
              if n <= 0x8000_0000_0000_0000 then Conversion(-(n as int), |s| - 1, Unchanged)
              else if n < 0x1_0000_0000_0000_0000 then Conversion(-0x8000_0000_0000_0000, |s| - 1, ERANGE)
              else Conversion(-1, |s| - 1, ERANGE)
  {
    hide Parse, Line;
    ReadsBack(spaces, [], prefix, base, n, b, capital);
    ReadsBack(spaces, [45], prefix, base, n, b, capital);
  }
}
