/** strtoull, strtoll and strtol of tis_stdlib.c, and the two versions of atoi. */
module StringToNumber {
  import opened Bytes
  import opened Limits
  import opened Numerals
  import Division

  datatype Errno = Unchanged | ERANGE | EINVAL

  /** A return value, the offset stored through endptr, and what happens to errno. */
  datatype Conversion = Conversion(value: int, end: nat, errno: Errno)

  /** Unsigned 64-bit negation. */
  function Negated(x: int): (r: int)
    requires 0 <= x <= ULLONG_MAX
    ensures 0 <= r <= ULLONG_MAX
  {
    (-x) % (ULLONG_MAX + 1)
  }

  // ----- strtoull -----

  /** The numeral that the program finds: sign, magnitude and end, or none. */
  datatype Parsed = NoNumeral | Numeral(neg: bool, magnitude: nat, end: nat)
  {
    function Number(): int {
      if NoNumeral? then 0 else if neg then -(magnitude as int) else magnitude
    }
  }

  function Parse(s: seq<Byte>, base: int): (p: Parsed)
    requires Terminated(s)
    ensures p.Numeral? ==> 0 < p.end < |s|
  {
    var l := LeadOf(s, SpaceEnd(s, 0), base);
    if !ValidBase(base) then NoNumeral else
      var e := DigitsEnd(s, l.first, l.base);
      if e == l.first then NoNumeral else Numeral(l.neg, Value(s, l.first, e, l.base), e)
  }

  /** The numeral found is the longest subject sequence after the white space, and
      its number is what the standard says that it denotes. */
  lemma ParseFindsSubject(s: seq<Byte>, base: int)
    requires Terminated(s) && ValidBase(base)
    ensures var i, p := SpaceEnd(s, 0), Parse(s, base);
            if p.Numeral? then Longest(s, i, p.end, base) && p.Number() == Denoted(s, i, p.end, base)
            else forall j: nat :: !Subject(s, i, j, base)
  {
    hide Longest, Denoted, Subject, LeadOf, DigitsEnd, Value;
    ReadsLongestSubject(s, SpaceEnd(s, 0), base);
  }

  function ToUnsigned(p: Parsed): (r: Conversion)
    ensures 0 <= r.value <= ULLONG_MAX
  {
    match p
    case NoNumeral => Conversion(0, 0, EINVAL)
    case Numeral(neg, m, e) =>
      if m > ULLONG_MAX then Conversion(ULLONG_MAX, e, ERANGE)
      else Conversion(if neg then Negated(m) else m, e, Unchanged)
  }

  /** The test with cutoff and cutlim is exact. */
  lemma CutoffIsExact(acc: nat, c: nat, base: nat)
    requires 0 < base && c < base
    ensures var cutoff, cutlim := ULLONG_MAX / base, ULLONG_MAX % base;
            acc > cutoff || (acc == cutoff && c > cutlim) <==> acc * base + c > ULLONG_MAX
  {
    var cutoff, cutlim := ULLONG_MAX / base, ULLONG_MAX % base;
    assert ULLONG_MAX == cutoff * base + cutlim;
    assert (acc - cutoff) * base == acc * base - cutoff * base && (cutoff - acc) * base == cutoff * base - acc * base;
    if acc > cutoff {
      Division.MulAtLeast(acc - cutoff, base);
    } else if acc < cutoff {
      Division.MulAtLeast(cutoff - acc, base);
    }
  }

  lemma ValueGrows(v: nat, base: nat)
    requires base > 0
    ensures v * base >= v
  {
  }

  /** Lines 59-62 and 148-151: s is one past the character in c. */
  method SkipSpaces(str: seq<Byte>) returns (s: nat, c: int)
    requires Terminated(str)
    ensures s == SpaceEnd(str, 0) + 1 && c == str[s - 1]
  {
    s, c := 1, str[0];
    while IsSpace(c)
      invariant 1 <= s <= |str| && c == str[s - 1] && SpaceEnd(str, 0) == SpaceEnd(str, s - 1)
      decreases |str| - s
    {
      c := str[s];
      s := s + 1;
    }
  }

  /** Lines 59-80: spaces, sign and prefix. */
  method ReadLead(str: seq<Byte>, base: int) returns (s: nat, c: int, neg: bool, base': int)
    requires Terminated(str)
    ensures var l := LeadOf(str, SpaceEnd(str, 0), base);
            s == l.first + 1 && c == str[l.first] && neg == l.neg && base' == l.base
  {
    s, c := SkipSpaces(str);
    base' := base;
    if c == Code('-') {
      neg := true;
      c := str[s];
      s := s + 1;
    } else {
      neg := false;
      if c == Code('+') {
        c := str[s];
        s := s + 1;
      }
    }
    if (base' == 0 || base' == 16) && c == Code('0') && (str[s] == Code('x') || str[s] == Code('X'))
       && (IsDigit(str[s + 1]) || Code('A') <= str[s + 1] <= Code('F') || Code('a') <= str[s + 1] <= Code('f')) {
      c := str[s + 1];
      s := s + 2;
      base' := 16;
    }
    if base' == 0 {
      base' := if c == Code('0') then 8 else 10;
    }
  }

  /** Lines 86-106. */
  method ReadDigits(str: seq<Byte>, first: nat, base: int) returns (s: nat, acc: nat, any: int)
    requires Terminated(str) && first < |str| && 2 <= base <= 36
    ensures s == DigitsEnd(str, first, base) + 1
    ensures var m := Value(str, first, s - 1, base);
            if s - 1 == first then any == 0
            else if m > ULLONG_MAX then any == -1
            else any == 1 && acc == m
  {
    var c: int := str[first];
    s, acc, any := first + 1, 0, 0;
    var cutoff, cutlim := ULLONG_MAX / base, ULLONG_MAX % base;
    while true
      invariant first < s <= |str| && c == str[s - 1]
      invariant DigitsEnd(str, first, base) == DigitsEnd(str, s - 1, base)
      invariant any == if s - 1 == first then 0 else if Value(str, first, s - 1, base) > ULLONG_MAX then -1 else 1
      invariant any >= 0 ==> acc == Value(str, first, s - 1, base)
      decreases |str| - s
    {
      if Code('0') <= c <= Code('9') {
        c := c - Code('0');
      } else if Code('A') <= c <= Code('Z') {
        c := c - (Code('A') - 10);
      } else if Code('a') <= c <= Code('z') {
        c := c - (Code('a') - 10);
      } else {
        break;
      }
      if c >= base {
        break;
      }
      ghost var before := Value(str, first, s - 1, base);
      ValueGrows(before, base);
      CutoffIsExact(before, c, base);
      if any < 0 || acc > cutoff || (acc == cutoff && c > cutlim) {
        any := -1;
      } else {
        any := 1;
        acc := acc * base;
        acc := acc + c;
      }
      c := str[s];
      s := s + 1;
    }
  }

  method StrToULL(nptr: seq<Byte>, base: int) returns (r: Conversion)
    requires Terminated(nptr)
    ensures r == ToUnsigned(Parse(nptr, base))
  {
    var s, c, neg, base' := ReadLead(nptr, base);
    if base' < 2 || base' > 36 {
      return Conversion(0, 0, EINVAL);
    }
    var s', acc, any := ReadDigits(nptr, s - 1, base');
    var errno := Unchanged;
    if any < 0 {
      acc, errno := ULLONG_MAX, ERANGE;
    } else if any == 0 {
      acc, errno := 0, EINVAL;
    } else if neg {
      acc := Negated(acc);
    }
    return Conversion(acc, if any != 0 then s' - 1 else 0, errno);
  }

  // ----- strtoll and strtol -----

  function Clamp(x: int, lo: int, hi: int): (r: int)
    ensures lo <= hi ==> lo <= r <= hi
    ensures lo <= x <= hi ==> r == x
    ensures lo <= hi ==> (x < lo ==> r == lo) && (x > hi ==> r == hi)
  {
    if x < lo then lo else if x > hi then hi else x
  }

  /** The conversion to a signed type with range lo..hi. */
  function ToSigned(p: Parsed, lo: int, hi: int): Conversion {
    match p
    case NoNumeral => Conversion(0, 0, EINVAL)
    case Numeral(neg, m, e) =>
      if neg && m > ULLONG_MAX then Conversion(-1, e, ERANGE)
      else Conversion(Clamp(p.Number(), lo, hi), e, if lo <= p.Number() <= hi then Unchanged else ERANGE)
  }

  /** The result is the number clamped to the range unless the numeral is negative
      with a magnitude that unsigned long long cannot hold; errno always tells
      whether the number is out of range. */
  lemma ClampedExactly(p: Parsed, lo: int, hi: int)
    requires p.Numeral? && -0x8000_0000_0000_0000 <= lo < -1 && 0 <= hi
    ensures ToSigned(p, lo, hi).value == Clamp(p.Number(), lo, hi) <==> !(p.neg && p.magnitude > ULLONG_MAX)
    ensures ToSigned(p, lo, hi).errno == (if lo <= p.Number() <= hi then Unchanged else ERANGE)
  {
  }

  // ----- Against the standard -----

  lemma ParseOfLongest(s: seq<Byte>, base: int, j: nat)
    requires Terminated(s) && ValidBase(base) && Longest(s, SpaceEnd(s, 0), j, base)
    ensures var p := Parse(s, base);
            p.Numeral? && p.end == j && p.Number() == Denoted(s, SpaceEnd(s, 0), j, base)
  {
    hide Subject, Denoted, Parse, SpaceEnd;
    ParseFindsSubject(s, base);
    assert Subject(s, SpaceEnd(s, 0), j, base);
  }

  /** What the standard asks of the conversion of the number d to an unsigned type with
      maximum max: d modulo max + 1, or saturation when its magnitude is too large. */
  function StandardUnsigned(d: int, end: nat, max: int): Conversion
    requires max >= 0
  {
    if -max <= d <= max then Conversion(d % (max + 1), end, Unchanged) else Conversion(max, end, ERANGE)
  }

  /** strtoull on a string whose longest subject sequence ends at j. */
  lemma UnsignedMeetsStandard(s: seq<Byte>, base: int, j: nat)
    requires Terminated(s) && ValidBase(base) && Longest(s, SpaceEnd(s, 0), j, base)
    ensures ToUnsigned(Parse(s, base)) == StandardUnsigned(Denoted(s, SpaceEnd(s, 0), j, base), j, ULLONG_MAX)
  {
    hide Denoted, Parse, Longest, SpaceEnd;
    ParseOfLongest(s, base, j);
  }

  /** strtoll and strtol on such a string: the number clamped to the type, with ERANGE
      exactly when it is clamped; the value is wrong exactly below -ULLONG_MAX. */
  lemma SignedMeetsStandard(s: seq<Byte>, base: int, j: nat, lo: int, hi: int)
    requires Terminated(s) && ValidBase(base) && Longest(s, SpaceEnd(s, 0), j, base)
    requires LLONG_MIN <= lo < -1 && 0 <= hi <= LLONG_MAX
    ensures var d, r := Denoted(s, SpaceEnd(s, 0), j, base), ToSigned(Parse(s, base), lo, hi);
            && r.end == j && r.errno == (if lo <= d <= hi then Unchanged else ERANGE)
            && (r.value == Clamp(d, lo, hi) <==> d >= -ULLONG_MAX)
  {
    hide Denoted, Parse, Longest, SpaceEnd;
    ParseOfLongest(s, base, j);
    ClampedExactly(Parse(s, base), lo, hi);
  }

  /** Without a subject sequence, or in a base that is not valid, nothing converts,
      and that is the only case in which the end is the start of the string. */
  lemma NothingConverts(s: seq<Byte>, base: int, lo: int, hi: int)
    requires Terminated(s)
    ensures ToUnsigned(Parse(s, base)).end == 0 <==> !ValidBase(base) || forall j: nat :: !Subject(s, SpaceEnd(s, 0), j, base)
    ensures base < 0 || base == 1 || base > 36 ==> ToUnsigned(Parse(s, base)).end == 0
    ensures ToUnsigned(Parse(s, base)).end == 0 <==> ToUnsigned(Parse(s, base)) == Conversion(0, 0, EINVAL)
    ensures ToUnsigned(Parse(s, base)).end == 0 <==> ToSigned(Parse(s, base), lo, hi) == Conversion(0, 0, EINVAL)
  {
    hide Subject, SpaceEnd, Denoted, LeadOf, DigitsEnd, Value;
    if ValidBase(base) {
      ParseFindsSubject(s, base);
      if Parse(s, base).Numeral? {
        assert Subject(s, SpaceEnd(s, 0), Parse(s, base).end, base);
      }
    }
  }

  function Times(v: nat, base: nat, n: nat): nat {
    if n == 0 then v else Times(v, base, n - 1) * base
  }

  lemma {:induction false} ZeroDigits(s: seq<Byte>, i: nat, j: nat, base: nat, n: nat)
    requires i <= j && j + n <= |s| && forall k :: j <= k < j + n ==> s[k] == Code('0')
    ensures Value(s, i, j + n, base) == Times(Value(s, i, j, base), base, n)
  {
    if n == 0 {
    } else {
      ZeroDigits(s, i, j, base, n - 1);
    }
  }

  /** The string "-g000000000000", in base 32 the number -2^64. */
  predicate IsHugeNegative(s: seq<Byte>) {
    && |s| == 15 && s[0] == Code('-') && s[1] == Code('g') && s[14] == 0
    && forall k :: 2 <= k < 14 ==> s[k] == Code('0')
  }

  lemma HugeMagnitude(s: seq<Byte>)
    requires IsHugeNegative(s)
    ensures Value(s, 1, 14, 32) == ULLONG_MAX + 1
  {
    assert Value(s, 1, 1, 32) == 0 && DigitValue(s[1]) == 16;
    ZeroDigits(s, 1, 2, 32, 12);
    assert Times(16, 32, 12) == ULLONG_MAX + 1;
  }

  /** On that string strtoll returns -1, not LLONG_MIN. */
  lemma HugeNegativeGivesMinusOne(s: seq<Byte>)
    requires IsHugeNegative(s)
    ensures ToSigned(Parse(s, 32), LLONG_MIN, LLONG_MAX) == Conversion(-1, 14, ERANGE)
  {
    hide Value;
    HugeMagnitude(s);
    assert LeadOf(s, SpaceEnd(s, 0), 32) == Lead(true, 1, 32);
    DigitsReach(s, 1, 14, 32);
  }

  /** Conversion of unsigned long long to long long. */
  function AsLongLong(x: int): int {
    if x > LLONG_MAX then x - (ULLONG_MAX + 1) else x
  }

  method StrToLL(nptr: seq<Byte>, base: int) returns (r: Conversion)
    requires Terminated(nptr)
    ensures r == ToSigned(Parse(nptr, base), LLONG_MIN, LLONG_MAX)
  {
    var s, c := SkipSpaces(nptr);
    var neg := c == Code('-');
    r := StrToULL(nptr, base);
    var res := r.value;
    if r.end != 0 {
      if neg {
        if res != 0 && res < 0x8000_0000_0000_0000 {
          r := r.(errno := ERANGE);
          res := 0x8000_0000_0000_0000;
        }
      } else if res > LLONG_MAX {
        r := r.(errno := ERANGE);
        res := LLONG_MAX;
      }
    }
    return r.(value := AsLongLong(res));
  }

  /** strtol for a type long with the given range: the second clamp makes no difference. */
  method StrToL(nptr: seq<Byte>, base: int, longMin: int, longMax: int) returns (r: Conversion)
    requires Terminated(nptr)
    requires LLONG_MIN <= longMin < -1 && 0 <= longMax <= LLONG_MAX
    ensures r == ToSigned(Parse(nptr, base), longMin, longMax)
  {
    r := StrToLL(nptr, base);
    if r.value > longMax {
      r := Conversion(longMax, r.end, ERANGE);
    } else if r.value < longMin {
      r := Conversion(longMin, r.end, ERANGE);
    }
  }

  // ----- strtoul -----

  function ToUnsignedLong(p: Parsed, ulongMax: int): (r: Conversion)
    requires ulongMax >= 0
    ensures 0 <= r.value && (ToUnsigned(p).value <= ulongMax ==> r == ToUnsigned(p))
  {
    var r := ToUnsigned(p);
    if r.value > ulongMax then Conversion(ulongMax, r.end, ERANGE) else r
  }

  method StrToUL(nptr: seq<Byte>, base: int, ulongMax: int) returns (r: Conversion)
    requires Terminated(nptr) && ulongMax >= 0
    ensures r == ToUnsignedLong(Parse(nptr, base), ulongMax)
  {
    r := StrToULL(nptr, base);
    if r.value > ulongMax {
      r := Conversion(ulongMax, r.end, ERANGE);
    }
  }

  lemma ModuloNext(d: int, max: int)
    requires 0 <= max && -max <= d <= max
    ensures d % (max + 1) == if d < 0 then d + max + 1 else d
  {
    if d < 0 {
      Division.Unique(d, max + 1, -1, d + max + 1);
    } else {
      Division.Unique(d, max + 1, 0, d);
    }
  }

  /** The number is not negative, or out of range for both types, or still out of range
      after negation modulo 2^64. */
  predicate NarrowsWell(d: int, ulongMax: int) {
    d >= 0 || d < -ULLONG_MAX || -(ULLONG_MAX - ulongMax) <= d < -ulongMax
  }

  lemma NegatedIs(m: int)
    requires 0 <= m <= ULLONG_MAX
    ensures Negated(m) == if m == 0 then 0 else ULLONG_MAX + 1 - m
  {
  }

  lemma NarrowedExactly(p: Parsed, ulongMax: int)
    requires p.Numeral? && 0 < ulongMax <= LLONG_MAX
    ensures ToUnsignedLong(p, ulongMax) == StandardUnsigned(p.Number(), p.end, ulongMax) <==> NarrowsWell(p.Number(), ulongMax)
  {
    hide Negated;
    if p.magnitude <= ULLONG_MAX {
      NegatedIs(p.magnitude);
    }
    if p.magnitude <= ulongMax {
      ModuloNext(p.Number(), ulongMax);
    }
  }

  /** strtoul is right for every number when long is as wide as long long; when it is
      narrower, exactly for those that narrow well. */
  lemma UnsignedLongMeetsStandard(s: seq<Byte>, base: int, j: nat, ulongMax: int)
    requires Terminated(s) && ValidBase(base) && Longest(s, SpaceEnd(s, 0), j, base)
    requires ulongMax == ULLONG_MAX || 0 < ulongMax <= LLONG_MAX
    ensures var d := Denoted(s, SpaceEnd(s, 0), j, base);
            ToUnsignedLong(Parse(s, base), ulongMax) == StandardUnsigned(d, j, ulongMax)
            <==> ulongMax == ULLONG_MAX || NarrowsWell(d, ulongMax)
  {
    hide Denoted, Parse, Longest, SpaceEnd, StandardUnsigned, NarrowsWell;
    ParseOfLongest(s, base, j);
    if ulongMax == ULLONG_MAX {
      UnsignedMeetsStandard(s, base, j);
    } else {
      NarrowedExactly(Parse(s, base), ulongMax);
    }
  }

  /** "-1" with a 32-bit long: ULONG_MAX is right, ERANGE is not; "-2" gives ULONG_MAX too. */
  lemma UnsignedLongDiffers()
    ensures ToUnsignedLong(Parse([45, 49, 0], 10), 0xffff_ffff) == Conversion(0xffff_ffff, 2, ERANGE)
    ensures StandardUnsigned(-1, 2, 0xffff_ffff) == Conversion(0xffff_ffff, 2, Unchanged)
    ensures ToUnsignedLong(Parse([45, 50, 0], 10), 0xffff_ffff) == Conversion(0xffff_ffff, 2, ERANGE)
    ensures StandardUnsigned(-2, 2, 0xffff_ffff) == Conversion(0xffff_fffe, 2, Unchanged)
  {
    MinusDigit(49);
    MinusDigit(50);
  }

  lemma MinusDigit(c: Byte)
    requires IsDigit(c)
    ensures Parse([45, c, 0], 10) == Numeral(true, c - 48, 2)
  {
    var s: seq<Byte> := [45, c, 0];
    assert LeadOf(s, SpaceEnd(s, 0), 10) == Lead(true, 1, 10);
    assert DigitsEnd(s, 1, 10) == 2 && Value(s, 1, 2, 10) == Value(s, 1, 1, 10) * 10 + (c - 48);
  }

  // ----- atoi -----

  /** The number that atoi of libc.c reads: sign and digits behind its own kind of space. */
  function PlainNumber(s: seq<Byte>): int
    requires Terminated(s)
  {
    var i := PlainSpaceEnd(s, 0);
    var k := AfterSign(s, i);
    var m := Value(s, k, DigitsEnd(s, k, 10), 10);
    if s[i] == Code('-') then -(m as int) else m
  }

  lemma {:induction false} ValueMonotone(s: seq<Byte>, i: nat, j: nat, e: nat)
    requires i <= j <= e <= |s|
    ensures Value(s, i, j, 10) <= Value(s, i, e, 10)
    decreases e
  {
    if j == e {
    } else {
      ValueMonotone(s, i, j, e - 1);
    }
  }

  /** Lines 239-251: the position of the first character after spaces and sign. */
  method PlainLead(p: seq<Byte>) returns (up: nat, neg: bool)
    requires Terminated(p)
    ensures var i := PlainSpaceEnd(p, 0);
            up == AfterSign(p, i) && neg == (p[i] == Code('-'))
  {
    up, neg := 0, false;
    if !IsDigit(p[up]) {
      while IsPlainSpace(p[up])
        invariant up < |p| && PlainSpaceEnd(p, 0) == PlainSpaceEnd(p, up)
        decreases |p| - up
      {
        up := up + 1;
      }
      if p[up] == Code('-') {
        neg := true;
        up := up + 1;
      } else if p[up] == Code('+') {
        up := up + 1;
      }
    }
  }

  /** atoi of libc.c.  ok is false when one of its int computations overflows; it is
      true exactly when the number fits int, INT_MIN included. */
  method AtoiByNegation(p: seq<Byte>) returns (r: int, ok: bool)
    requires Terminated(p)
    ensures ok <==> IsInt(PlainNumber(p))
    ensures ok ==> r == PlainNumber(p)
  {
    var up, neg := PlainLead(p);
    var c: int := p[up];
    if !IsDigit(c) {
      return 0, true;
    }
    ghost var k, e := up, DigitsEnd(p, up, 10);
    var n := Code('0') - c;
    up := up + 1;
    c := p[up];
    assert Value(p, k, up, 10) == -n by {
      assert Value(p, k, k, 10) == 0;
    }
    while IsDigit(c)
      invariant k < up < |p| && c == p[up] && DigitsEnd(p, up, 10) == e
      invariant n == -(Value(p, k, up, 10) as int) && INT_MIN <= n
      decreases |p| - up
    {
      ghost var before := Value(p, k, up, 10);
      ValueMonotone(p, k, up + 1, e);
      assert Value(p, k, up + 1, 10) == before * 10 + (c - Code('0'));
      if n * 10 < INT_MIN || n * 10 + (Code('0') - c) < INT_MIN {
        return 0, false;
      }
      n := n * 10;
      n := n + (Code('0') - c);
      up := up + 1;
      c := p[up];
    }
    if neg {
      return n, true;
    }
    if -n > INT_MAX {
      return 0, false;
    }
    return -n, true;
  }

  /** Conversion of long to int. */
  function AsInt(x: int): (r: int)
    ensures IsInt(r) && (r - x) % 0x1_0000_0000 == 0
    ensures IsInt(x) ==> r == x
  {
    var low := x % 0x1_0000_0000;
    if low > INT_MAX then low - 0x1_0000_0000 else low
  }

  /** atoi of common_missing.c. */
  method AtoiByStrtol(p: seq<Byte>, longMin: int, longMax: int) returns (r: int)
    requires Terminated(p)
    requires LLONG_MIN <= longMin <= INT_MIN && INT_MAX <= longMax <= LLONG_MAX
    ensures r == AsInt(ToSigned(Parse(p, 10), longMin, longMax).value)
  {
    var conversion := StrToL(p, 10, longMin, longMax);
    r := AsInt(conversion.value);
  }

  lemma {:induction false} SpaceEndUnique(s: seq<Byte>, i: nat, j: nat)
    requires Terminated(s) && i <= j < |s|
    requires !IsSpace(s[j]) && forall k :: i <= k < j ==> IsSpace(s[k])
    ensures SpaceEnd(s, i) == j
    decreases j - i
  {
    if i == j {
    } else {
      SpaceEndUnique(s, i + 1, j);
    }
  }

  /** The leading white space has no \v and no \f in it. */
  predicate PlainLeadingSpace(s: seq<Byte>)
    requires Terminated(s)
  {
    forall k :: 0 <= k < SpaceEnd(s, 0) ==> s[k] != 11 && s[k] != 12
  }

  lemma {:induction false} SpacesCoincide(s: seq<Byte>, i: nat)
    requires Terminated(s) && i < |s|
    ensures PlainSpaceEnd(s, i) == SpaceEnd(s, i) <==> forall k :: i <= k < SpaceEnd(s, i) ==> s[k] != 11 && s[k] != 12
    decreases |s| - i
  {
    SpacesAre(s[i]);
    if !IsPlainSpace(s[i]) {
    } else {
      SpacesCoincide(s, i + 1);
    }
  }

  /** The two versions of atoi agree on every number that fits int exactly when the
      leading white space has no \f or \v in it, or the number is zero anyway. */
  lemma AtoiVersionsAgree(s: seq<Byte>, longMin: int, longMax: int)
    requires Terminated(s) && IsInt(Parse(s, 10).Number())
    requires LLONG_MIN <= longMin <= INT_MIN && INT_MAX <= longMax <= LLONG_MAX
    ensures PlainNumber(s) == AsInt(ToSigned(Parse(s, 10), longMin, longMax).value)
            <==> PlainLeadingSpace(s) || Parse(s, 10).Number() == 0
  {
    SpacesCoincide(s, 0);
    assert AsInt(ToSigned(Parse(s, 10), longMin, longMax).value) == Parse(s, 10).Number();
    PlainNumberIs(s);
  }

  lemma PlainNumberIs(s: seq<Byte>)
    requires Terminated(s)
    ensures PlainNumber(s) == if PlainSpaceEnd(s, 0) == SpaceEnd(s, 0) then Parse(s, 10).Number() else 0
  {
    var j := PlainSpaceEnd(s, 0);
    if !IsSpace(s[j]) {
      SpaceEndUnique(s, 0, j);
    } else {
      assert DigitsEnd(s, j, 10) == j;
    }
  }

  /** On a form feed and "7" one version returns 0 and the other 7. */
  lemma AtoiVersionsDiffer()
    ensures var s := [12, 55, 0];
            PlainNumber(s) == 0 && AsInt(ToSigned(Parse(s, 10), LLONG_MIN, LLONG_MAX).value) == 7
  {
    var s: seq<Byte> := [12, 55, 0];
    SpaceEndUnique(s, 0, 1);
    assert LeadOf(s, 1, 10) == Lead(false, 1, 10);
    assert DigitsEnd(s, 1, 10) == 2 && Value(s, 1, 2, 10) == Value(s, 1, 1, 10) * 10 + 7;
    assert PlainSpaceEnd(s, 0) == 0 && DigitsEnd(s, 0, 10) == 0;
  }
}
