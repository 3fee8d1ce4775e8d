/** The comparison functions of libc.c and string.c: strcmp, strncmp, memcmp,
    strcasecmp and strncasecmp. */
module Comparison {
  import opened Bytes
  import opened DigitTable
  import QuickSort

  // ----- The strings that are compared -----

  /** The characters of the string at the start of s, at most n of them. */
  function Text(s: seq<Byte>, n: nat): (u: seq<Byte>)
    ensures |u| <= n && |u| <= |s| && u == s[..|u|] && 0 !in u
    ensures |u| < n && |u| < |s| ==> s[|u|] == 0
    decreases n
  {
    if n == 0 || s == [] || s[0] == 0 then [] else [s[0]] + Text(s[1..], n - 1)
  }

  /** A string can be read up to its NUL or to n characters. */
  predicate Readable(s: seq<Byte>, n: nat) {
    Terminated(s) || |s| >= n
  }

  function Head(u: seq<Byte>): Byte {
    if u == [] then 0 else u[0]
  }

  function Rest(u: seq<Byte>): seq<Byte> {
    if u == [] then [] else u[1..]
  }

  /** The difference of the first characters that differ, a string being followed by NUL. */
  function Difference(u: seq<Byte>, v: seq<Byte>): int
    decreases |u| + |v|
  {
    if u == [] && v == [] then 0
    else if Head(u) != Head(v) then Head(u) - Head(v)
    else Difference(Rest(u), Rest(v))
  }

  function LowerChar(c: Byte): (r: Byte)
    ensures r == 0 <==> c == 0
  {
    if Code('A') <= c <= Code('Z') then c + 32 else c
  }

  function Lower(u: seq<Byte>): (r: seq<Byte>)
    ensures |r| == |u| && (0 !in u ==> 0 !in r)
    ensures forall i :: 0 <= i < |u| ==> r[i] == LowerChar(u[i])
  {
    if u == [] then [] else [LowerChar(u[0])] + Lower(u[1..])
  }

  // ----- Difference is a comparison -----

  lemma {:induction false} DifferenceZero(u: seq<Byte>, v: seq<Byte>)
    requires 0 !in u && 0 !in v
    ensures Difference(u, v) == 0 <==> u == v
    decreases |u| + |v|
  {
    if u == [] || v == [] || u[0] != v[0] {
    } else {
      DifferenceZero(u[1..], v[1..]);
      assert u == [u[0]] + u[1..] && v == [v[0]] + v[1..];
    }
  }

  lemma {:induction false} DifferenceAntisymmetric(u: seq<Byte>, v: seq<Byte>)
    ensures Difference(v, u) == -Difference(u, v)
    decreases |u| + |v|
  {
    if (u == [] && v == []) || Head(u) != Head(v) {
    } else {
      DifferenceAntisymmetric(Rest(u), Rest(v));
    }
  }

  lemma {:induction false} DifferenceTransitive(u: seq<Byte>, v: seq<Byte>, w: seq<Byte>)
    requires 0 !in u && 0 !in v && 0 !in w
    requires Difference(u, v) <= 0 && Difference(v, w) <= 0
    ensures Difference(u, w) <= 0
    decreases |u| + |v| + |w|
  {
    if u == [] || v == [] || w == [] || u[0] != v[0] || v[0] != w[0] {
    } else {
      DifferenceTransitive(u[1..], v[1..], w[1..]);
    }
  }

  /** At the first difference the comparison is that of the characters there, and a
      string comes before any that goes on behind it. */
  lemma {:induction false} DifferenceAt(w: seq<Byte>, a: Byte, x: seq<Byte>, b: Byte, y: seq<Byte>)
    requires a != b && b != 0
    ensures Difference(w + [a] + x, w + [b] + y) == a as int - b as int
    ensures Difference(w, w + [b] + y) == -(b as int)
    decreases |w|
  {
    var u, v := w + [a] + x, w + [b] + y;
    if w == [] {
      assert u[0] == a && v[0] == b;
    } else {
      assert u[1..] == w[1..] + [a] + x && v[1..] == w[1..] + [b] + y;
      DifferenceAt(w[1..], a, x, b, y);
    }
  }

  // ----- Letters without case -----

  /** The same character, or the same letter once as a capital and once not. */
  ghost predicate SameUpToCase(a: Byte, b: Byte) {
    a == b || exists d :: 10 <= d < 36 && IsPair(d, a, b)
  }

  predicate IsPair(d: nat, a: Byte, b: Byte)
    requires d < 36
  {
    (a == Letter(d, true) && b == Letter(d, false)) || (a == Letter(d, false) && b == Letter(d, true))
  }

  /** Capitals turn into the letters that they are the capitals of; all else stays. */
  lemma LowerCharIs(c: Byte)
    ensures forall d :: 10 <= d < 36 ==> LowerChar(Letter(d, true)) == Letter(d, false)
    ensures (forall d :: 10 <= d < 36 ==> c != Letter(d, true)) ==> LowerChar(c) == c
  {
    hide Letter;
    forall d | 10 <= d < 36
      ensures LowerChar(Letter(d, true)) == Letter(d, false)
    {
      LettersInOrder(d);
    }
    if Code('A') <= c <= Code('Z') {
      LettersInOrder(c - 55);
    }
  }

  lemma LowerSame(a: Byte, b: Byte)
    ensures LowerChar(a) == LowerChar(b) <==> SameUpToCase(a, b)
  {
    hide Letter;
    forall d | 10 <= d < 36
      ensures Letter(d, true) == 55 + d && Letter(d, false) == 87 + d
    {
      LettersInOrder(d);
    }
    if a != b && LowerChar(a) == LowerChar(b) {
      var d := (if a < b then a else b) - 55;
      assert IsPair(d, a, b);
    }
  }

  /** strcasecmp returns 0 exactly for strings that are equal letter by letter up to case. */
  lemma CaseZero(u: seq<Byte>, v: seq<Byte>)
    ensures var x, y := Text(u, |u|), Text(v, |v|);
            CaseDifference(u, v) == 0 <==> |x| == |y| && forall i :: 0 <= i < |x| ==> SameUpToCase(x[i], y[i])
  {
    hide Difference, Text, SameUpToCase, LowerChar;
    var x, y := Text(u, |u|), Text(v, |v|);
    DifferenceZero(Lower(x), Lower(y));
    forall i | 0 <= i < |x| && i < |y|
      ensures Lower(x)[i] == Lower(y)[i] <==> SameUpToCase(x[i], y[i])
    {
      LowerSame(x[i], y[i]);
    }
    hide Lower;
  }

  /** The comparison that strcasecmp makes of two strings. */
  function CaseDifference(u: seq<Byte>, v: seq<Byte>): int {
    Difference(Lower(Text(u, |u|)), Lower(Text(v, |v|)))
  }

  /** strcasecmp is fit for qsort. */
  lemma CaseDifferenceIsPreorder()
    ensures QuickSort.TotalPreorder((u, v) => CaseDifference(u, v))
  {
    var cmp := (u, v) => CaseDifference(u, v);
    forall u, v
      ensures cmp(u, v) <= 0 || cmp(v, u) <= 0
    {
      DifferenceAntisymmetric(Lower(Text(u, |u|)), Lower(Text(v, |v|)));
    }
    forall u, v, w | cmp(u, v) <= 0 && cmp(v, w) <= 0
      ensures cmp(u, w) <= 0
    {
      DifferenceTransitive(Lower(Text(u, |u|)), Lower(Text(v, |v|)), Lower(Text(w, |w|)));
    }
  }

  /** strncmp_zero: the bounded comparison is zero exactly when the strings are equal
      and shorter than n, or their first n characters are equal. */
  lemma BoundedZero(s: seq<Byte>, t: seq<Byte>, n: nat)
    requires Readable(s, n) && Readable(t, n)
    ensures Difference(Text(s, n), Text(t, n)) == 0 <==>
            || (|Text(s, n)| < n && Text(s, n) == Text(t, n))
            || (|s| >= n && |t| >= n && s[..n] == t[..n])
  {
    DifferenceZero(Text(s, n), Text(t, n));
    if |s| >= n && |t| >= n && s[..n] == t[..n] {
      SameText(s, t, n);
    }
  }

  lemma {:induction false} SameText(s: seq<Byte>, t: seq<Byte>, n: nat)
    requires |s| >= n && |t| >= n && s[..n] == t[..n]
    ensures Text(s, n) == Text(t, n)
    decreases n
  {
    if n == 0 {
    } else {
      assert s[0] == s[..n][0] == t[..n][0] == t[0];
      assert s[1..][..n - 1] == s[..n][1..] && t[1..][..n - 1] == t[..n][1..];
      SameText(s[1..], t[1..], n - 1);
    }
  }

  // ----- The functions -----

  function Folded(u: seq<Byte>, fold: bool): (r: seq<Byte>)
    ensures |r| == |u|
  {
    if fold then Lower(u) else u
  }

  function FoldedChar(c: Byte, fold: bool): Byte {
    if fold then LowerChar(c) else c
  }

  /** The comparison of at most n characters of the strings at s[i..] and t[i..]. */
  function Compared(s: seq<Byte>, t: seq<Byte>, i: nat, n: nat, fold: bool): int
    requires i <= |s| && i <= |t|
  {
    Difference(Folded(Text(s[i..], n), fold), Folded(Text(t[i..], n), fold))
  }

  lemma ComparedStep(s: seq<Byte>, t: seq<Byte>, i: nat, n: nat, fold: bool)
    requires i < |s| && i < |t|
    requires n > 0
    ensures var a, b := FoldedChar(s[i], fold), FoldedChar(t[i], fold);
            Compared(s, t, i, n, fold) == if a != b then a - b else if a == 0 then 0 else Compared(s, t, i + 1, n - 1, fold)
  {
    assert s[i..][1..] == s[i + 1..] && t[i..][1..] == t[i + 1..];
  }

  lemma NoneCompared(s: seq<Byte>, t: seq<Byte>, i: nat, fold: bool)
    requires i <= |s| && i <= |t|
    ensures Compared(s, t, i, 0, fold) == 0
  {
  }

  lemma {:induction false} TextAll(s: seq<Byte>, n: nat)
    requires n >= |s|
    ensures Text(s, n) == Text(s, |s|)
    decreases |s|
  {
    if s == [] || s[0] == 0 {
    } else {
      TextAll(s[1..], n - 1);
    }
  }

  lemma ComparedFrom0(s: seq<Byte>, t: seq<Byte>, n: nat, fold: bool)
    ensures Compared(s, t, 0, n, fold) == Difference(Folded(Text(s, n), fold), Folded(Text(t, n), fold))
  {
    hide Difference, Text, Folded;
    assert s[0..] == s && t[0..] == t;
  }

  lemma FoldedIs(u: seq<Byte>, fold: bool)
    ensures Folded(u, fold) == if fold then Lower(u) else u
  {
  }

  lemma ComparedAll(s: seq<Byte>, t: seq<Byte>, fold: bool)
    ensures Compared(s, t, 0, |s| + |t|, fold) == if fold then CaseDifference(s, t) else Difference(Text(s, |s|), Text(t, |t|))
  {
    hide Difference, Text, Lower, Compared, Folded;
    TextAll(s, |s| + |t|);
    TextAll(t, |s| + |t|);
    ComparedFrom0(s, t, |s| + |t|, fold);
    FoldedIs(Text(s, |s|), fold);
    FoldedIs(Text(t, |t|), fold);
  }

  lemma SameIsZero(u: seq<Byte>)
    requires 0 !in u
    ensures Difference(u, u) == 0
  {
    DifferenceZero(u, u);
  }

  /** same: the two pointers are equal. */
  method StrCmp(s1: seq<Byte>, s2: seq<Byte>, same: bool) returns (r: int)
    requires Terminated(s1) && Terminated(s2) && (same ==> s1 == s2)
    ensures r == Difference(Text(s1, |s1|), Text(s2, |s2|))
  {
    hide Difference, Text, Compared;
    if same {
      SameIsZero(Text(s1, |s1|));
      return 0;
    }
    ghost var goal := Difference(Text(s1, |s1|), Text(s2, |s2|));
    var i := 0;
    ghost var n := |s1| + |s2|;
    ComparedAll(s1, s2, false);
    while s1[i] == s2[i]
      invariant i < |s1| && i < |s2| && i + n == |s1| + |s2|
      invariant goal == Compared(s1, s2, i, n, false)
      decreases n
    {
      ComparedStep(s1, s2, i, n, false);
      if s1[i] == 0 {
        return 0;
      }
      i, n := i + 1, n - 1;
    }
    ComparedStep(s1, s2, i, n, false);
    return (s1[i] as int) - (s2[i] as int);
  }

  method StrNCmp(s1: seq<Byte>, s2: seq<Byte>, size: nat, same: bool) returns (r: int)
    requires Readable(s1, size) && Readable(s2, size) && (same ==> s1 == s2)
    ensures r == Difference(Text(s1, size), Text(s2, size))
  {
    hide Difference, Text, Compared;
    if same {
      SameIsZero(Text(s1, size));
      return 0;
    }
    ghost var goal := Difference(Text(s1, size), Text(s2, size));
    var i, n := 0, size;
    ComparedFrom0(s1, s2, size, false);
    while n != 0 && s1[i] == s2[i]
      invariant 0 <= i && 0 <= n && i + n == size && (n > 0 ==> i < |s1| && i < |s2|) && i <= |s1| && i <= |s2|
      invariant goal == Compared(s1, s2, i, n, false)
      decreases n
    {
      ComparedStep(s1, s2, i, n, false);
      if s1[i] == 0 {
        return 0;
      }
      i, n := i + 1, n - 1;
    }
    if n == 0 {
      NoneCompared(s1, s2, i, false);
      return 0;
    }
    ComparedStep(s1, s2, i, n, false);
    return (s1[i] as int) - (s2[i] as int);
  }

  method MemCmp(s1: seq<Byte>, s2: seq<Byte>, n: nat, same: bool) returns (r: int)
    requires n <= |s1| && n <= |s2| && (same ==> s1 == s2)
    ensures r == 0 <==> s1[..n] == s2[..n]
    ensures r != 0 ==> exists k :: 0 <= k < n && s1[..k] == s2[..k] && r == (s1[k] as int) - (s2[k] as int)
  {
    if !same {
      for k := 0 to n
        invariant s1[..k] == s2[..k]
      {
        if s1[k] != s2[k] {
          assert s1[..n][k] != s2[..n][k];
          return (s1[k] as int) - (s2[k] as int);
        }
      }
    }
    return 0;
  }

  /** Line 164: the difference of the lower-case characters, by a correction of 32. */
  function CaseStep(c1: Byte, c2: Byte): (res: int)
    ensures res == LowerChar(c1) - LowerChar(c2)
  {
    c1 - c2 + 32 * ((if Code('A') <= c1 <= Code('Z') then 1 else 0) - (if Code('A') <= c2 <= Code('Z') then 1 else 0))
  }

  method StrCaseCmp(s1: seq<Byte>, s2: seq<Byte>) returns (res: int)
    requires Terminated(s1) && Terminated(s2)
    ensures res == CaseDifference(s1, s2)
  {
    hide CaseDifference, Compared;
    var i := 0;
    ghost var n := |s1| + |s2|;
    ComparedAll(s1, s2, true);
    while true
      invariant i < |s1| && i < |s2| && i + n == |s1| + |s2|
      invariant CaseDifference(s1, s2) == Compared(s1, s2, i, n, true)
      decreases n
    {
      ComparedStep(s1, s2, i, n, true);
      res := CaseStep(s1[i], s2[i]);
      if s1[i] == 0 || res != 0 {
        break;
      }
      i, n := i + 1, n - 1;
    }
  }

  method StrNCaseCmp(s1: seq<Byte>, s2: seq<Byte>, size: nat) returns (res: int)
    requires Readable(s1, size) && Readable(s2, size)
    ensures res == Difference(Lower(Text(s1, size)), Lower(Text(s2, size)))
  {
    res := 0;
    hide Difference, Text, Compared, Lower;
    var i, n := 0, size;
    ComparedFrom0(s1, s2, size, true);
    while n != 0
      invariant 0 <= i && 0 <= n && i + n == size && (n > 0 ==> i < |s1| && i < |s2|) && i <= |s1| && i <= |s2| && res == 0
      invariant Difference(Lower(Text(s1, size)), Lower(Text(s2, size))) == Compared(s1, s2, i, n, true)
      decreases n
    {
      ComparedStep(s1, s2, i, n, true);
      res := CaseStep(s1[i], s2[i]);
      if s1[i] == 0 || res != 0 {
        return;
      }
      i, n := i + 1, n - 1;
    }
    NoneCompared(s1, s2, i, true);
  }
}
