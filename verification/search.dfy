/** The searching functions of libc.c and string.c, which implement the same
    functions in two ways: strrchr and strstr. */
module Search {
  import opened Bytes
  import opened Comparison
  import opened Padding

  datatype Found = Null | At(offset: nat)

  /** The offset of the NUL that ends the string. */
  function Length(s: seq<Byte>): (n: nat)
    requires Terminated(s)
    ensures n < |s| && s[n] == 0 && 0 !in s[..n] && Text(s, |s|) == s[..n]
  {
    |Text(s, |s|)|
  }

  // ----- strchr -----

  /** r is the first occurrence of c from offset i on, the NUL included. */
  predicate First(s: seq<Byte>, i: nat, c: Byte, r: Found)
    requires Terminated(s)
  {
    match r
    case Null => forall k :: i <= k <= Length(s) ==> s[k] != c
    case At(j) => i <= j <= Length(s) && s[j] == c && forall k :: i <= k < j ==> s[k] != c
  }

  /** r is the last occurrence. */
  predicate Last(s: seq<Byte>, c: Byte, r: Found)
    requires Terminated(s)
  {
    match r
    case Null => forall k :: 0 <= k <= Length(s) ==> s[k] != c
    case At(j) => j <= Length(s) && s[j] == c && forall k :: j < k <= Length(s) ==> s[k] != c
  }

  method StrChr(s: seq<Byte>, i: nat, c: Byte) returns (r: Found)
    requires Terminated(s) && i <= Length(s)
    ensures First(s, i, c, r)
  {
    var p := i;
    while true
      invariant i <= p <= Length(s) && forall k :: i <= k < p ==> s[k] != c
      decreases Length(s) - p
    {
      if s[p] == c {
        return At(p);
      }
      if s[p] == 0 {
        return Null;
      }
      p := p + 1;
    }
  }

  /** strrchr of string.c: repeated strchr. */
  method StrRChrBySearch(s: seq<Byte>, c: Byte) returns (ret: Found)
    requires Terminated(s)
    ensures Last(s, c, ret)
  {
    if c != 0 {
      ret := Null;
      var p := 0;
      while true
        invariant p <= Length(s)
        invariant match ret
                  case Null => forall k :: 0 <= k < p ==> s[k] != c
                  case At(j) => j < p && s[j] == c && forall k :: j < k < p ==> s[k] != c
        decreases Length(s) - p
      {
        var q := StrChr(s, p, c);
        if q.Null? {
          break;
        }
        ret := q;
        p := q.offset + 1;
      }
    } else {
      ret := StrChr(s, 0, c);
    }
  }

  /** strrchr of libc.c: one pass. */
  method StrRChrInOnePass(s: seq<Byte>, c: Byte) returns (rtnval: Found)
    requires Terminated(s)
    ensures Last(s, c, rtnval)
  {
    rtnval := Null;
    var p := 0;
    while true
      invariant p <= Length(s)
      invariant match rtnval
                case Null => forall k :: 0 <= k < p ==> s[k] != c
                case At(j) => j < p && s[j] == c && forall k :: j < k < p ==> s[k] != c
      decreases Length(s) - p
    {
      if s[p] == c {
        rtnval := At(p);
      }
      if s[p] == 0 {
        break;
      }
      p := p + 1;
    }
  }

  /** Both versions return the same address: there is only one last occurrence. */
  lemma LastIsUnique(s: seq<Byte>, c: Byte, q: Found, r: Found)
    requires Terminated(s) && Last(s, c, q) && Last(s, c, r)
    ensures q == r
  {
  }

  // ----- strstr -----

  /** The string sub occurs in str at offset k. */
  predicate Occurs(str: seq<Byte>, sub: seq<Byte>, k: nat)
    requires Terminated(str) && Terminated(sub)
  {
    k + Length(sub) <= Length(str) && str[k..k + Length(sub)] == sub[..Length(sub)]
  }

  ghost predicate Leftmost(str: seq<Byte>, sub: seq<Byte>, r: Found)
    requires Terminated(str) && Terminated(sub)
  {
    match r
    case Null => forall k: nat :: !Occurs(str, sub, k)
    case At(j) => Occurs(str, sub, j) && forall k: nat :: k < j ==> !Occurs(str, sub, k)
  }

  /** strstr of string.c: a sliding memcmp. */
  method StrStrBySliding(str: seq<Byte>, sub: seq<Byte>) returns (ret: Found)
    requires Terminated(str) && Terminated(sub)
    ensures Leftmost(str, sub, ret)
  {
    ret := Null;
    var subl, strl := Length(sub), Length(str);
    if subl <= strl {
      strl := strl - subl;
      var p := 0;
      while true
        invariant 0 <= p && 0 <= strl && p + strl + subl == Length(str)
        invariant forall k: nat :: k < p ==> !Occurs(str, sub, k)
        decreases strl
      {
        var c := MemCmp(str[p..], sub, subl, false);
        assert str[p..][..subl] == str[p..p + subl];
        if c == 0 {
          return At(p);
        } else if strl == 0 {
          break;
        }
        p, strl := p + 1, strl - 1;
      }
    }
  }

  lemma MatchIsOccurrence(str: seq<Byte>, sub: seq<Byte>, p: nat)
    requires Terminated(str) && Terminated(sub) && p <= Length(str)
    ensures Difference(Text(str[p..], Length(sub)), Text(sub, Length(sub))) == 0 <==> Occurs(str, sub, p)
  {
    var n := Length(sub);
    DifferenceZero(Text(str[p..], n), Text(sub, n));
    assert Text(sub, n) == sub[..n];
    if Occurs(str, sub, p) {
      assert str[p..][..n] == sub[..n];
      SameText(str[p..], sub, n);
    }
  }

  ghost predicate NoneBefore(str: seq<Byte>, sub: seq<Byte>, i: nat)
    requires Terminated(str) && Terminated(sub)
  {
    forall k: nat :: k < i ==> !Occurs(str, sub, k)
  }

  /** Nothing is lost by looking only where the first character is found. */
  lemma SkippingIsSafe(str: seq<Byte>, sub: seq<Byte>, i: nat, p: Found)
    requires Terminated(str) && Terminated(sub) && Length(sub) > 0
    requires NoneBefore(str, sub, i) && First(str, i, sub[0], p)
    ensures match p
            case At(j) => NoneBefore(str, sub, j) && j < Length(str)
            case Null => Leftmost(str, sub, Null)
  {
    forall k: nat | Occurs(str, sub, k)
      ensures k < Length(str) && str[k] == sub[0]
    {
      assert str[k] == str[k..k + Length(sub)][0];
    }
  }

  /** strstr of libc.c: strncmp wherever strchr finds the first character.  For an
      empty sub it finds the end of str. */
  method StrStrByChr(s1: seq<Byte>, s2: seq<Byte>) returns (r: Found)
    requires Terminated(s1) && Terminated(s2)
    ensures if Length(s2) == 0 then r == At(Length(s1)) else Leftmost(s1, s2, r)
  {
    hide Occurs, Difference, Text;
    var len := Length(s2);
    var p := StrChr(s1, 0, s2[0]);
    ghost var i: nat := 0;
    while p.At?
      invariant i <= |s1| && First(s1, i, s2[0], p)
      invariant len > 0 ==> NoneBefore(s1, s2, i)
      invariant len == 0 ==> p == At(Length(s1))
      decreases |s1| - i
    {
      if len > 0 { SkippingIsSafe(s1, s2, i, p); }
      var c := StrNCmp(s1[p.offset..], s2, len, false);
      MatchIsOccurrence(s1, s2, p.offset);
      if c == 0 {
        return p;
      }
      if len == 0 { EmptyOccurs(s1, s2, p.offset); }
      i := p.offset + 1;
      p := StrChr(s1, p.offset + 1, s2[0]);
    }
    SkippingIsSafe(s1, s2, i, p);
    return Null;
  }

  lemma EmptyOccurs(str: seq<Byte>, sub: seq<Byte>, k: nat)
    requires Terminated(str) && Terminated(sub) && Length(sub) == 0 && k <= Length(str)
    ensures Occurs(str, sub, k)
  {
  }

  /** The two versions of strstr agree exactly when sub is not empty or str is. */
  lemma StrStrVersionsAgree(str: seq<Byte>, sub: seq<Byte>, q: Found, r: Found)
    requires Terminated(str) && Terminated(sub)
    requires Leftmost(str, sub, q)
    requires if Length(sub) == 0 then r == At(Length(str)) else Leftmost(str, sub, r)
    ensures q == r <==> Length(sub) > 0 || Length(str) == 0
  {
    if Length(sub) == 0 {
      EmptyOccurs(str, sub, 0);
    }
  }

  /** The empty string in "a". */
  lemma StrStrVersionsDiffer()
    ensures Leftmost([97, 0], [0], At(0)) && Length([0]) == 0 && At(Length([97, 0])) == At(1)
  {
    assert Text([97, 0], 2) == [97] + Text([0], 1);
    EmptyOccurs([97, 0], [0], 0);
  }

  // ----- The results, on strings put together -----

  lemma LengthOf(u: seq<Byte>)
    requires 0 !in u
    ensures Terminated(u + [0]) && Length(u + [0]) == |u|
  {
    TextOfPrefix(u + [0], u, |u| + 1);
  }

  /** In a string a, c, b, NUL the result that strchr promises is the place of c when
      there is none in a, and the result that strrchr promises when there is none in b. */
  lemma ChrResults(a: seq<Byte>, c: Byte, b: seq<Byte>, r: Found)
    requires 0 !in a && 0 !in b && c != 0
    ensures Terminated(a + [c] + b + [0])
    ensures c !in a ==> (First(a + [c] + b + [0], 0, c, r) <==> r == At(|a|))
    ensures c !in b ==> (Last(a + [c] + b + [0], c, r) <==> r == At(|a|))
  {
    LengthOf(a + [c] + b);
    var s := a + [c] + b + [0];
    assert s[|a|] == c;
    assert forall k :: 0 <= k < |a| ==> s[k] == a[k];
    assert forall k :: |a| < k <= |a| + |b| ==> s[k] == b[k - |a| - 1];
    assert s[|a| + 1 + |b|] == 0;
  }

  /** x occurs behind a in every string a, x, b, and nowhere else than where such parts are. */
  lemma OccursBetween(a: seq<Byte>, x: seq<Byte>, b: seq<Byte>)
    requires 0 !in a && 0 !in x && 0 !in b
    ensures Terminated(a + x + b + [0]) && Terminated(x + [0]) && Occurs(a + x + b + [0], x + [0], |a|)
  {
    LengthOf(a + x + b);
    LengthOf(x);
    var s := a + x + b + [0];
    assert s[|a|..|a| + |x|] == x && (x + [0])[..|x|] == x;
  }

  lemma OccursSplits(u: seq<Byte>, x: seq<Byte>, k: nat)
    requires 0 !in u && 0 !in x && Terminated(u + [0]) && Terminated(x + [0]) && Occurs(u + [0], x + [0], k)
    ensures k + |x| <= |u| && u == u[..k] + x + u[k + |x|..]
  {
    LengthOf(u);
    LengthOf(x);
    assert u[k..k + |x|] == (u + [0])[k..k + |x|] == (x + [0])[..|x|] == x;
  }

  /** The NUL itself is found at the end, and a character that is not there is not found. */
  lemma ChrAtEnd(u: seq<Byte>, c: Byte, r: Found)
    requires 0 !in u && c !in u
    ensures Terminated(u + [0])
    ensures First(u + [0], 0, c, r) <==> r == if c == 0 then At(|u|) else Null
    ensures Last(u + [0], c, r) <==> r == if c == 0 then At(|u|) else Null
  {
    LengthOf(u);
    var s := u + [0];
    assert s[|u|] == 0;
    assert forall k :: 0 <= k < |u| ==> s[k] == u[k] && u[k] in u;
  }

  /** The promise of strstr: no way of splitting the string around x starts earlier. */
  lemma LeftmostIsLeast(u: seq<Byte>, x: seq<Byte>, r: Found, a: seq<Byte>, b: seq<Byte>)
    requires 0 !in u && 0 !in x && Terminated(u + [0]) && Terminated(x + [0])
    requires Leftmost(u + [0], x + [0], r)
    ensures u == a + x + b ==> r.At? && r.offset <= |a|
    ensures r.At? ==> r.offset + |x| <= |u| && u == u[..r.offset] + x + u[r.offset + |x|..]
  {
    if u == a + x + b {
      OccursBetween(a, x, b);
    }
    if r.At? {
      OccursSplits(u, x, r.offset);
    }
  }
}
