/** The copying functions of string.c and libc.c, in place on a destination buffer. */
module Copying {
  import opened Bytes
  import opened Memory
  import opened Comparison
  import opened Search
  import opened Padding

  lemma PaddedIs(src: seq<Byte>, n: nat, r: seq<Byte>)
    requires |r| == n && Text(src, n) <= r && forall k :: |Text(src, n)| <= k < n ==> r[k] == 0
    ensures r == Padded(src, n)
  {
  }

  /** strncpy of string.c: clear, then copy. */
  method StrNCpyByMemSet(s1: array<Byte>, s2: seq<Byte>, n: nat)
    requires n <= s1.Length && Readable(s2, n)
    modifies s1
    ensures s1[..] == Padded(s2, n) + old(s1[n..])
  {
    hide Text;
    var l := |Text(s2, n)|;
    if l < n {
      MemSet(s1, 0, 0, n);
    }
    MemCpy(s1, 0, s2[..l]);
    PaddedIs(s2, n, s1[..n]);
    assert s1[n..] == old(s1[n..]);
  }

  /** strncpy of libc.c: copy up to the NUL, then fill. */
  method StrNCpyByLoops(s1: array<Byte>, s2: seq<Byte>, size: nat)
    requires size <= s1.Length && Readable(s2, size)
    modifies s1
    ensures s1[..] == Padded(s2, size) + old(s1[size..])
  {
    hide Text, Padded;
    var i, n := 0, size;
    while n != 0
      invariant 0 <= i && 0 <= n && i + n == size && i <= |Text(s2, size)|
      invariant forall k :: 0 <= k < i ==> s1[k] == s2[k]
      invariant forall k :: i <= k < s1.Length ==> s1[k] == old(s1[k])
      decreases n
    {
      s1[i] := s2[i];
      if s2[i] == 0 {
        break;
      }
      TextReaches(s2, size, i);
      i, n := i + 1, n - 1;
    }
    if n != 0 {
      TextStops(s2, size, i);
      i, n := i + 1, n - 1;
      while n != 0
        invariant 0 <= n && i + n == size && |Text(s2, size)| < i
        invariant forall k :: 0 <= k < |Text(s2, size)| ==> s1[k] == s2[k]
        invariant forall k :: |Text(s2, size)| <= k < i ==> s1[k] == 0
        invariant forall k :: i <= k < s1.Length ==> s1[k] == old(s1[k])
        decreases n
      {
        s1[i] := 0;
        i, n := i + 1, n - 1;
      }
    }
    PaddedIs(s2, size, s1[..size]);
    assert s1[size..] == old(s1[size..]);
  }

  lemma TextReaches(s: seq<Byte>, n: nat, i: nat)
    requires i < n && i < |s| && i <= |Text(s, n)| && s[i] != 0
    ensures i < |Text(s, n)|
  {
  }

  lemma TextStops(s: seq<Byte>, n: nat, i: nat)
    requires i < n && i < |s| && i <= |Text(s, n)| && s[i] == 0
    ensures i == |Text(s, n)|
  {
  }

  // ----- strlcat, strlcpy and strncat -----

  lemma TextTake(src: seq<Byte>, n: nat, cnt: nat)
    requires Terminated(src) && cnt == if n > Length(src) then Length(src) else n
    ensures Text(src, n) == src[..cnt]
  {
    TextOfPrefix(src, src[..cnt], n);
  }

  /** The last steps of strlcat and strlcpy: cnt characters and a NUL, but nothing for cnt == 0. */
  method CopyAndEnd(dst: array<Byte>, at: nat, src: seq<Byte>, cnt: nat)
    requires at + cnt < dst.Length && cnt <= |src|
    modifies dst
    ensures dst[..] == if cnt == 0 then old(dst[..]) else old(dst[..at]) + src[..cnt] + [0] + old(dst[at + cnt + 1..])
  {
    if cnt != 0 {
      MemCpy(dst, at, src[..cnt]);
      dst[at + cnt] := 0;
    }
  }

  /** The first NUL of the buffer's first n bytes, or n. */
  method EndOfText(dst: array<Byte>, n: nat) returns (p: nat)
    requires n <= dst.Length
    ensures p == |Text(dst[..n], n)| && (p < n ==> dst[p] == 0) && Text(dst[..n], n) == dst[..p]
  {
    p := 0;
    while p < n && dst[p] != 0
      invariant p <= n && forall k :: 0 <= k < p ==> dst[k] != 0
      decreases n - p
    {
      p := p + 1;
    }
    TextOfPrefix(dst[..n], dst[..p], n);
  }

  /** What strlcat and strlcpy leave of `m`: `u` and `v` and a NUL over the front of it. */
  function Ended(m: seq<Byte>, u: seq<Byte>, v: seq<Byte>): seq<Byte>
    requires |u| + |v| < |m|
  {
    u + v + [0] + m[|u| + |v| + 1..]
  }

  lemma EndedReads(m: seq<Byte>, u: seq<Byte>, v: seq<Byte>, n: nat)
    requires 0 !in u && 0 !in v && |u| + |v| < n <= |m|
    ensures Text(Ended(m, u, v)[..n], n) == u + v
    ensures Ended(m, u, v)[n..] == m[n..]
  {
    hide Text;
    TextOfPrefix(Ended(m, u, v)[..n], u + v, n);
  }

  /** The buffer `m` after strlcat. */
  function LAppended(m: seq<Byte>, src: seq<Byte>, n: nat): seq<Byte>
    requires n <= |m|
  {
    var u := Text(m[..n], n);
    if |u| == n then m else Ended(m, u, Text(src, n - |u| - 1))
  }

  /** strlcat: the buffer and the length strlcat tried to make. */
  method StrLCat(dst: array<Byte>, src: seq<Byte>, n: nat) returns (r: nat)
    requires n <= dst.Length && Terminated(src)
    modifies dst
    ensures r == |Text(old(dst[..n]), n)| + Length(src)
    ensures dst[..] == LAppended(old(dst[..]), src, n)
  {
    hide Text, Terminated, Ended;
    ghost var m := dst[..];
    var srclen := Length(src);
    var dstlen := EndOfText(dst, n);
    assert m[..n] == dst[..n];
    var cnt := n - dstlen;
    if cnt == 0 {
      return n + srclen;
    }
    cnt := cnt - 1;
    if cnt > srclen {
      cnt := srclen;
    }
    TextTake(src, n - dstlen - 1, cnt);
    CopyAndEnd(dst, dstlen, src, cnt);
    EndedIs(m, m[..dstlen], src[..cnt]);
    return dstlen + srclen;
  }

  lemma EndedIs(m: seq<Byte>, u: seq<Byte>, v: seq<Byte>)
    requires |u| + |v| < |m| && u <= m
    ensures v == [] && m[|u|] == 0 ==> Ended(m, u, v) == m
    ensures v != [] ==> Ended(m, u, v) == m[..|u|] + v + [0] + m[|u| + |v| + 1..]
  {
  }

  /** What strlcat is for: the buffer is left holding the two texts, cut at n - 1
      characters and terminated, whenever it held a terminated text to begin with. */
  lemma LAppendedReads(m: seq<Byte>, src: seq<Byte>, n: nat)
    requires n <= |m| && |Text(m[..n], n)| < n
    ensures var u := Text(m[..n], n);
            Text(LAppended(m, src, n)[..n], n) == u + Text(src, n - |u| - 1)
    ensures LAppended(m, src, n)[n..] == m[n..]
  {
    hide Text, Ended;
    var u := Text(m[..n], n);
    EndedReads(m, u, Text(src, n - |u| - 1), n);
  }

  /** Without a NUL in its first n bytes the buffer stays as it was; otherwise only what
      stands behind the old text is written, up to the new NUL. */
  lemma LAppendedElsewhere(m: seq<Byte>, src: seq<Byte>, n: nat)
    requires n <= |m|
    ensures |LAppended(m, src, n)| == |m| && LAppended(m, src, n)[n..] == m[n..]
    ensures 0 !in m[..n] ==> LAppended(m, src, n) == m
    ensures 0 in m[..n] ==>
              var d := |Text(m[..n], n)|;
              var e := d + |Text(src, n - d - 1)|;
              LAppended(m, src, n)[..d] == m[..d] && LAppended(m, src, n)[e + 1..] == m[e + 1..]
  {
    hide Text;
    if 0 !in m[..n] {
      TextOfPrefix(m[..n], m[..n], n);
    } else {
      TextIsShort(m[..n], n);
    }
  }

  lemma TextIsShort(s: seq<Byte>, n: nat)
    requires 0 in s && |s| <= n
    ensures |Text(s, n)| < |s| && Text(s, n) == s[..|Text(s, n)|]
  {
    assert |Text(s, n)| == |s| ==> Text(s, n) == s;
  }

  /** The buffer `m` after strlcpy: an empty copy writes nothing. */
  function LCopied(m: seq<Byte>, src: seq<Byte>, n: nat): seq<Byte>
    requires n <= |m|
  {
    if n == 0 || Text(src, n - 1) == [] then m else Ended(m, [], Text(src, n - 1))
  }

  method StrLCpy(dst: array<Byte>, src: seq<Byte>, n: nat) returns (r: nat)
    requires n <= dst.Length && Terminated(src)
    modifies dst
    ensures r == Length(src)
    ensures dst[..] == LCopied(old(dst[..]), src, n)
  {
    hide Text, Terminated, Ended;
    ghost var m := dst[..];
    var srclen := Length(src);
    if n != 0 {
      var cnt := n - 1;
      if cnt > srclen {
        cnt := srclen;
      }
      TextTake(src, n - 1, cnt);
      CopyAndEnd(dst, 0, src, cnt);
      EndedIs(m, [], src[..cnt]);
    }
    return srclen;
  }

  lemma TextEmpty(s: seq<Byte>, n: nat)
    requires n > 0 && |s| > 0
    ensures Text(s, n) == [] <==> s[0] == 0
  {
  }

  /** The terminated copy cut at n - 1 characters that strlcpy is for is what the buffer
      reads as exactly when there was something to copy or a NUL stood there already. */
  lemma LCopiedReads(m: seq<Byte>, src: seq<Byte>, n: nat)
    requires 0 < n <= |m|
    ensures Text(LCopied(m, src, n)[..n], n) == Text(src, n - 1) <==> Text(src, n - 1) != [] || m[0] == 0
  {
    hide Text, Ended;
    var v := Text(src, n - 1);
    if v == [] {
      TextEmpty(m[..n], n);
    } else {
      EndedReads(m, [], v, n);
      assert [] + v == v;
    }
  }

  /** The rest of the buffer stays as it was: all of it when n is 0 or the source empty. */
  lemma LCopiedElsewhere(m: seq<Byte>, src: seq<Byte>, n: nat)
    requires n <= |m|
    ensures |LCopied(m, src, n)| == |m| && LCopied(m, src, n)[n..] == m[n..]
    ensures n == 0 || Text(src, n - 1) == [] ==> LCopied(m, src, n) == m
    ensures n > 0 ==> LCopied(m, src, n)[|Text(src, n - 1)| + 1..] == m[|Text(src, n - 1)| + 1..]
  {
    hide Text;
  }

  /** An empty source leaves whatever the buffer holds. */
  lemma EmptyCopyKeepsText()
    ensures Text([0], 1) == [] && Text(LCopied([97, 0], [0], 2), 2) == [97]
  {
    assert Text([0], 1) == [];
    TextOfPrefix([97, 0], [97], 2);
  }

  // ----- strncat -----

  /** The room that section 7.24.3.2 of ISO C11 asks for: the text, at most n characters
      of src, and a NUL. */
  predicate HasRoom(m: seq<Byte>, src: seq<Byte>, n: nat) {
    |Text(m, |m|)| + |Text(src, n)| < |m|
  }

  /** The place of the NUL that strncat writes, behind the whole length of src. */
  function EndOfWhole(m: seq<Byte>, src: seq<Byte>): nat
    requires Terminated(src)
  {
    |Text(m, |m|)| + Length(src)
  }

  /** The buffer `m` with at most n characters of src behind its text, and no NUL yet. */
  function Appended(m: seq<Byte>, src: seq<Byte>, n: nat): (r: seq<Byte>)
    requires HasRoom(m, src, n)
    ensures |r| == |m|
  {
    var u, v := Text(m, |m|), Text(src, n);
    u + v + m[|u| + |v|..]
  }

  /** The buffer `m` after strncat. */
  function NAppended(m: seq<Byte>, src: seq<Byte>, n: nat): seq<Byte>
    requires HasRoom(m, src, n) && Terminated(src) && EndOfWhole(m, src) < |m|
  {
    Appended(m, src, n)[EndOfWhole(m, src) := 0]
  }

  /** inside is false when the final write of line 146 goes outside the buffer, which
      happens, for a buffer that is as large as the standard asks, exactly when the whole
      of src would not fit. */
  method StrNCat(dest: array<Byte>, src: seq<Byte>, n: nat) returns (inside: bool)
    requires HasRoom(dest[..], src, n) && Terminated(src)
    modifies dest
    ensures inside <==> EndOfWhole(old(dest[..]), src) < dest.Length
    ensures dest[..] == if inside then NAppended(old(dest[..]), src, n) else Appended(old(dest[..]), src, n)
  {
    hide Text, Terminated, Appended, NAppended;
    ghost var m := dest[..];
    var dlen := EndOfText(dest, dest.Length);
    var slen := Length(src);
    assert dest[..dest.Length] == m;
    CopiedIsAppended(m, src, n, slen);
    if slen < n {
      MemCpy(dest, dlen, src[..slen + 1]);
      return true;
    }
    MemCpy(dest, dlen, src[..n]);
    if dlen + slen >= dest.Length {
      return false;
    }
    dest[dlen + slen] := 0;
    return true;
  }

  lemma CopiedIsAppended(m: seq<Byte>, src: seq<Byte>, n: nat, slen: nat)
    requires HasRoom(m, src, n) && Terminated(src) && slen == Length(src)
    ensures var d := |Text(m, |m|)|;
            && (slen < n ==> d + slen < |m| && m[..d] + src[..slen + 1] + m[d + slen + 1..] == NAppended(m, src, n))
            && (slen >= n ==> d + n < |m| && m[..d] + src[..n] + m[d + n..] == Appended(m, src, n))
            && (slen >= n && d + slen < |m| ==> NAppended(m, src, n) == Appended(m, src, n)[d + slen := 0])
  {
    hide Text, Terminated;
    TextTake(src, n, if n > slen then slen else n);
  }

  /** The promise of strncat, the text followed by at most n characters of src, is kept
      exactly when src has at most n characters or a NUL stood behind the n copied ones. */
  lemma NAppendedReads(m: seq<Byte>, src: seq<Byte>, n: nat)
    requires HasRoom(m, src, n) && Terminated(src) && EndOfWhole(m, src) < |m|
    ensures Text(NAppended(m, src, n), |m|) == Text(m, |m|) + Text(src, n)
            <==> Length(src) <= n || m[|Text(m, |m|)| + n] == 0
  {
    hide Text, Terminated;
    var d, l := |Text(m, |m|)|, Length(src);
    TextTake(src, n, if n > l then l else n);
    var u, r := Text(m, |m|) + Text(src, n), NAppended(m, src, n);
    if l <= n || m[d + n] == 0 {
      TextOfPrefix(r, u, |m|);
    }
  }

  /** Elsewhere than behind the text, over the copied characters and at the place of the
      NUL, nothing changes. */
  lemma NAppendedElsewhere(m: seq<Byte>, src: seq<Byte>, n: nat, k: nat)
    requires HasRoom(m, src, n) && Terminated(src) && EndOfWhole(m, src) < |m| && k < |m|
    ensures var d := |Text(m, |m|)|;
            && |NAppended(m, src, n)| == |m| && NAppended(m, src, n)[d + Length(src)] == 0
            && (k < d || (k >= d + |Text(src, n)| && k != d + Length(src)) ==> NAppended(m, src, n)[k] == m[k])
            && (d <= k < d + |Text(src, n)| && k != d + Length(src) ==> NAppended(m, src, n)[k] == src[k - d])
  {
    hide Text, Terminated;
  }

  /** A source that is not longer than n is always appended inside the buffer. */
  lemma ShortSourceFits(m: seq<Byte>, src: seq<Byte>, n: nat)
    requires HasRoom(m, src, n) && Terminated(src) && Length(src) <= n
    ensures EndOfWhole(m, src) < |m|
  {
    hide Text, Terminated;
    TextTake(src, n, Length(src));
  }

  /** "ab" appended with n = 1: in four bytes the text runs on into what was there, and in
      the two bytes that are enough for the standard the NUL goes outside. */
  lemma LongSourceBreaksPromise()
    ensures var m, src := [0, 120, 120, 0], [97, 98, 0];
            HasRoom(m, src, 1) && Terminated(src) && EndOfWhole(m, src) < |m|
            && Text(m, 4) + Text(src, 1) == [97] && Text(NAppended(m, src, 1), 4) == [97, 120]
    ensures var m, src := [0, 0], [97, 98, 0];
            HasRoom(m, src, 1) && Terminated(src) && EndOfWhole(m, src) == |m|
  {
    var m, src: seq<Byte> := [0, 120, 120, 0], [97, 98, 0];
    TextOfPrefix(m, [], 4);
    TextOfPrefix([0, 0], [], 2);
    TextOfPrefix(src, [97], 1);
    TextOfPrefix(src, [97, 98], 3);
    assert Length(src) == 2;
    assert NAppended(m, src, 1) == [97, 120, 0, 0];
    TextOfPrefix([97, 120, 0, 0], [97, 120], 4);
  }
}
